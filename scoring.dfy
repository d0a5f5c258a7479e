/**
 * The scoring-function table of `AutoBreak`: the named score terms, their
 * parameter lists, `set_optimization_func` (which keeps the known names and
 * overwrites parameters that fit), the `optimize` reduction and the
 * `preprocess_optim_params` rules.
 */
module Scoring {
  import opened Options

  /** The keys of `optim_funcs_dict` (and of `optim_params_dict`). */
  datatype Term =
    | Has14 | Has16 | Tm | DG | Structure | Length | MaxSeq
    | GaussLength | GaussMaxSeq | GaussTm | LogLength | LogMaxSeq | LogTm

  function TermName(t: Term): string {
    match t
    case Has14 => "14"
    case Has16 => "16"
    case Tm => "Tm"
    case DG => "dG"
    case Structure => "structure"
    case Length => "length"
    case MaxSeq => "maxseq"
    case GaussLength => "glength"
    case GaussMaxSeq => "gmaxseq"
    case GaussTm => "gTm"
    case LogLength => "llength"
    case LogMaxSeq => "lmaxseq"
    case LogTm => "lTm"
  }

  /** Dictionary lookup of a term name; `None` for a name the table does not know. */
  function ParseTerm(name: string): Option<Term> {
    if name == "14" then Some(Has14)
    else if name == "16" then Some(Has16)
    else if name == "Tm" then Some(Tm)
    else if name == "dG" then Some(DG)
    else if name == "structure" then Some(Structure)
    else if name == "length" then Some(Length)
    else if name == "maxseq" then Some(MaxSeq)
    else if name == "glength" then Some(GaussLength)
    else if name == "gmaxseq" then Some(GaussMaxSeq)
    else if name == "gTm" then Some(GaussTm)
    else if name == "llength" then Some(LogLength)
    else if name == "lmaxseq" then Some(LogMaxSeq)
    else if name == "lTm" then Some(LogTm)
    else None
  }

  /** The lookup recognises exactly the names of the table. */
  lemma ParseTermExact(name: string, t: Term)
    ensures ParseTerm(name) == Some(t) <==> name == TermName(t)
  {
  }

  type Params = map<Term, seq<real>>

  /** `optim_params_dict` as `AutoBreak.__init__` builds it. */
  function DefaultParams(): Params
  {
    map[Has14 := [], Has16 := [], Tm := [], DG := [50.0], Structure := [1.0], Length := [],
        MaxSeq := [14.0], GaussLength := [45.0, 5.0], GaussMaxSeq := [14.0, 2.0],
        GaussTm := [60.0, 5.0], LogLength := [45.0, 5.0], LogMaxSeq := [14.0, 2.0],
        LogTm := [60.0, 5.0]]
  }

  /**
   * The number of entries of its own parameter list each term reads. `dG`
   * reads none although the table gives it one. The log-Gaussian terms read
   * the list of the matching Gaussian term (`glength`, `gmaxseq`, `gTm`)
   * and none of their own, so configuring `llength`, `lmaxseq` or `lTm`
   * changes nothing any term reads.
   */
  function Arity(t: Term): nat {
    match t
    case Structure | MaxSeq => 1
    case GaussLength | GaussMaxSeq | GaussTm => 2
    case _ => 0
  }

  /** Every term has at least the parameters it reads. */
  ghost predicate ParamsFit(p: Params) {
    forall t :: t in p && |p[t]| >= Arity(t)
  }

  lemma DefaultParamsFit()
    ensures ParamsFit(DefaultParams())
  {
    var p := DefaultParams();
    forall t ensures t in p && |p[t]| >= Arity(t) {
      match t
      case Has14 => case Has16 => case Tm => case DG => case Structure => case Length =>
      case MaxSeq => case GaussLength => case GaussMaxSeq => case GaussTm =>
      case LogLength => case LogMaxSeq => case LogTm =>
    }
  }

  /** The assignment loop `optim_params_dict[func][j] = params[j]` for `j < len(params)`. */
  function Overwrite(old_: seq<real>, given: seq<real>): (r: seq<real>)
    requires |given| <= |old_|
    ensures |r| == |old_|
    ensures forall j :: 0 <= j < |given| ==> r[j] == given[j]
    ensures forall j :: |given| <= j < |old_| ==> r[j] == old_[j]
  {
    given + old_[|given|..]
  }

  /** One `(name, parameters)` entry of the function arguments. */
  datatype FuncArg = FuncArg(name: string, params: seq<real>)

  /**
   * `set_optimization_func`: the reference definition, one entry at a time.
   * Returns the selected terms in argument order and the updated parameters.
   */
  function Configure(args: seq<FuncArg>, p: Params): (seq<Term>, Params)
  {
    if args == [] then ([], p)
    else
      var a := args[0];
      var (terms, p1) :=
        match ParseTerm(a.name)
        case None => ([], p)
        case Some(t) =>
          if t in p && |a.params| <= |p[t]| then ([t], p[t := Overwrite(p[t], a.params)])
          else ([t], p);
      var (rest, p2) := Configure(args[1..], p1);
      (terms + rest, p2)
  }

  /** The names that were kept, in order: unknown names are skipped silently. */
  function KnownTerms(args: seq<FuncArg>): seq<Term> {
    if args == [] then []
    else match ParseTerm(args[0].name)
      case None => KnownTerms(args[1..])
      case Some(t) => [t] + KnownTerms(args[1..])
  }

  /**
   * `set_optimization_func` selects exactly the known names, in order, and only
   * ever overwrites a prefix of a parameter list: no list changes length, so a
   * term can always read the parameters it needs afterwards; terms not named
   * keep their parameters, and a named term's list is overwritten by each
   * fitting entry in turn (`NamedParams`, see `ConfigureParams`).
   */
  lemma {:induction false} ConfigureMeaning(args: seq<FuncArg>, p: Params)
    ensures Configure(args, p).0 == KnownTerms(args)
    ensures Configure(args, p).1.Keys == p.Keys
    ensures forall t :: t in p ==> |Configure(args, p).1[t]| == |p[t]|
    ensures forall t :: t in p && (forall k :: 0 <= k < |args| ==> args[k].name != TermName(t))
                     ==> Configure(args, p).1[t] == p[t]
    ensures forall t :: t in p ==> Configure(args, p).1[t] == NamedParams(args, t, p[t])
  {
    ConfigureParams(args, p);
    if args != [] {
      var a := args[0];
      var p1 := match ParseTerm(a.name)
        case None => p
        case Some(t) => if t in p && |a.params| <= |p[t]| then p[t := Overwrite(p[t], a.params)] else p;
      ConfigureMeaning(args[1..], p1);
      forall t | t in p && (forall k :: 0 <= k < |args| ==> args[k].name != TermName(t))
        ensures Configure(args, p).1[t] == p[t]
      {
        assert args[0].name != TermName(t);
        if ParseTerm(a.name).Some? {
          ParseTermExact(a.name, ParseTerm(a.name).value);
        }
        assert p1[t] == p[t];
        forall k | 0 <= k < |args[1..]| ensures args[1..][k].name != TermName(t) {
          assert args[1..][k] == args[k + 1];
        }
      }
    }
  }

  /**
   * The parameters of term `t` after the entries naming it were applied in
   * argument order, each only when its list fits the current one.
   */
  function NamedParams(args: seq<FuncArg>, t: Term, v: seq<real>): seq<real> {
    if args == [] then v
    else
      var v1 := if args[0].name == TermName(t) && |args[0].params| <= |v| then Overwrite(v, args[0].params) else v;
      NamedParams(args[1..], t, v1)
  }

  /** Entries that do not name `t` leave its parameters alone. */
  lemma {:induction false} NamedParamsUnnamed(args: seq<FuncArg>, t: Term, v: seq<real>)
    requires forall k :: 0 <= k < |args| ==> args[k].name != TermName(t)
    ensures NamedParams(args, t, v) == v
  {
    if args != [] {
      assert forall k :: 0 <= k < |args[1..]| ==> args[1..][k] == args[k + 1];
      NamedParamsUnnamed(args[1..], t, v);
    }
  }

  /** A term named by exactly one entry takes that entry's values when they fit, and is kept otherwise. */
  lemma {:induction false} NamedParamsSingle(args: seq<FuncArg>, t: Term, v: seq<real>, k: nat)
    requires k < |args| && args[k].name == TermName(t)
    requires forall j :: 0 <= j < |args| && j != k ==> args[j].name != TermName(t)
    ensures NamedParams(args, t, v) == if |args[k].params| <= |v| then Overwrite(v, args[k].params) else v
  {
    assert forall j :: 0 <= j < |args[1..]| ==> args[1..][j] == args[j + 1];
    if k == 0 {
      var v1 := if |args[0].params| <= |v| then Overwrite(v, args[0].params) else v;
      NamedParamsUnnamed(args[1..], t, v1);
    } else {
      NamedParamsSingle(args[1..], t, v, k - 1);
    }
  }

  /**
   * What `set_optimization_func` does to the parameters of each term: every
   * entry naming it overwrites a prefix of its list, in argument order, when
   * the given list is no longer than the list in the table; so a term named
   * once takes that entry's values exactly when they fit.
   */
  lemma {:induction false} ConfigureParams(args: seq<FuncArg>, p: Params)
    ensures forall t :: t in p ==> t in Configure(args, p).1 && Configure(args, p).1[t] == NamedParams(args, t, p[t])
    ensures forall t, k ::
      (&& t in p && 0 <= k < |args| && args[k].name == TermName(t)
       && (forall j :: 0 <= j < |args| && j != k ==> args[j].name != TermName(t)))
      ==> Configure(args, p).1[t] == if |args[k].params| <= |p[t]| then Overwrite(p[t], args[k].params) else p[t]
  {
    if args != [] {
      var a := args[0];
      var p1 := match ParseTerm(a.name)
        case None => p
        case Some(t) => if t in p && |a.params| <= |p[t]| then p[t := Overwrite(p[t], a.params)] else p;
      ConfigureParams(args[1..], p1);
      forall t | t in p
        ensures t in Configure(args, p).1 && Configure(args, p).1[t] == NamedParams(args, t, p[t])
      {
        if ParseTerm(a.name).Some? {
          ParseTermExact(a.name, ParseTerm(a.name).value);
        }
        ParseTermExact(a.name, t);
        assert t in p1 && p1[t] == if a.name == TermName(t) && |a.params| <= |p[t]| then Overwrite(p[t], a.params) else p[t];
      }
    }
    forall t, k | t in p && 0 <= k < |args| && args[k].name == TermName(t) &&
      (forall j :: 0 <= j < |args| && j != k ==> args[j].name != TermName(t))
      ensures Configure(args, p).1[t] == if |args[k].params| <= |p[t]| then Overwrite(p[t], args[k].params) else p[t]
    {
      NamedParamsSingle(args, t, p[t], k);
    }
  }

  /** A configuration keeps parameter lists long enough for every term. */
  lemma ConfigureKeepsFit(args: seq<FuncArg>, p: Params)
    requires ParamsFit(p)
    ensures ParamsFit(Configure(args, p).1)
  {
    ConfigureMeaning(args, p);
  }

  /**
   * The features of an edge that the score terms read. `logProb`, `maxTm` and
   * the values of the six Gaussian and log-Gaussian terms come from
   * floating-point formulas and are supplied, not computed here.
   */
  datatype Features = Features(
    length: int, maxSeq: nat, has14: nat, has16: nat, structure: nat,
    maxTm: real, logProb: real,
    gaussLength: real, gaussMaxSeq: real, gaussTm: real,
    logLength: real, logMaxSeq: real, logTm: real)

  /** One entry of the function table evaluated on an edge. */
  function EvalTerm(t: Term, f: Features, p: Params): real
    requires ParamsFit(p)
  {
    match t
    case Has14 => f.has14 as real
    case Has16 => f.has16 as real
    case Tm => f.maxTm
    case DG => f.logProb
    case Structure => f.structure as real * p[Structure][0]
    case Length => f.length as real
    case MaxSeq => if f.maxSeq as real >= p[MaxSeq][0] then 1.0 else 0.0
    case GaussLength => f.gaussLength
    case GaussMaxSeq => f.gaussMaxSeq
    case GaussTm => f.gaussTm
    case LogLength => f.logLength
    case LogMaxSeq => f.logMaxSeq
    case LogTm => f.logTm
  }

  /** The integer-valued terms are indicators: 0 or 1. */
  lemma IndicatorTerms(f: Features, p: Params)
    requires ParamsFit(p)
    requires f.has14 <= 1 && f.has16 <= 1
    ensures forall t :: t in {Has14, Has16, MaxSeq} ==> EvalTerm(t, f, p) == 0.0 || EvalTerm(t, f, p) == 1.0
  {
  }

  /** `[func(edge) for func in self.optimize_func_list]`. */
  function EvalTerms(ts: seq<Term>, f: Features, p: Params): (r: seq<real>)
    requires ParamsFit(p)
    ensures |r| == |ts|
    ensures forall k :: 0 <= k < |ts| ==> r[k] == EvalTerm(ts[k], f, p)
  {
    if ts == [] then [] else [EvalTerm(ts[0], f, p)] + EvalTerms(ts[1..], f, p)
  }

  function Sum(xs: seq<real>): real {
    if xs == [] then 0.0 else xs[0] + Sum(xs[1..])
  }

  function Product(xs: seq<real>): real {
    if xs == [] then 1.0 else xs[0] * Product(xs[1..])
  }

  /** `optimize`: the sum if "sum" is requested, plus the product if "product" is requested and there is more than one term. */
  function Optimize(values: seq<real>, reductions: seq<string>): real {
    (if "sum" in reductions then Sum(values) else 0.0)
    + (if |values| > 1 && "product" in reductions then Product(values) else 0.0)
  }

  lemma {:induction false} SumAppend(a: seq<real>, b: seq<real>)
    ensures Sum(a + b) == Sum(a) + Sum(b)
  {
    if a != [] {
      assert (a + b)[1..] == a[1..] + b;
      SumAppend(a[1..], b);
    } else {
      assert a + b == b;
    }
  }

  /** Removing the element at `j` leaves the rest of the multiset. */
  lemma {:induction false} RemoveOne(b: seq<real>, j: nat)
    requires j < |b|
    ensures b == b[..j] + ([b[j]] + b[j + 1..])
    ensures multiset(b[..j] + b[j + 1..]) == multiset(b) - multiset{b[j]}
  {
    assert b == b[..j] + [b[j]] + b[j + 1..];
    assert b[..j] + [b[j]] + b[j + 1..] == b[..j] + ([b[j]] + b[j + 1..]);
  }

  /** The sum of the terms does not depend on their order. */
  lemma {:induction false} SumPermutation(a: seq<real>, b: seq<real>)
    requires multiset(a) == multiset(b)
    ensures Sum(a) == Sum(b)
    decreases |a|
  {
    if a == [] {
      assert |b| == |multiset(b)| == 0;
    } else {
      assert a[0] in multiset(b);
      var j :| 0 <= j < |b| && b[j] == a[0];
      RemoveOne(b, j);
      assert a == [a[0]] + a[1..];
      var left, right := b[..j], b[j + 1..];
      assert multiset(a[1..]) == multiset(left + right);
      SumPermutation(a[1..], left + right);
      SumStep(a, b, left, right);
    }
  }

  /** A sum whose first term sits between two blocks whose sum is that of the rest. */
  lemma {:induction false} SumStep(a: seq<real>, b: seq<real>, left: seq<real>, right: seq<real>)
    requires a != [] && b == left + ([a[0]] + right) && Sum(a[1..]) == Sum(left + right)
    ensures Sum(a) == Sum(b)
  {
    SumAppend(left, right);
    SumAppend(left, [a[0]] + right);
    assert ([a[0]] + right)[1..] == right;
  }

  /** The product of the terms does not depend on their order. */
  lemma {:induction false} ProductPermutation(a: seq<real>, b: seq<real>)
    requires multiset(a) == multiset(b)
    ensures Product(a) == Product(b)
    decreases |a|
  {
    if a == [] {
      assert |b| == |multiset(b)| == 0;
    } else {
      assert a[0] in multiset(b);
      var j :| 0 <= j < |b| && b[j] == a[0];
      RemoveOne(b, j);
      assert a == [a[0]] + a[1..];
      var left, right := b[..j], b[j + 1..];
      assert multiset(a[1..]) == multiset(left + right);
      ProductPermutation(a[1..], left + right);
      ProductStep(a, b, left, right);
    }
  }

  /** A product whose first factor sits between two blocks whose product is that of the rest. */
  lemma {:induction false} ProductStep(a: seq<real>, b: seq<real>, left: seq<real>, right: seq<real>)
    requires a != [] && b == left + ([a[0]] + right) && Product(a[1..]) == Product(left + right)
    ensures Product(a) == Product(b)
  {
    ProductMoveFront(a[0], left, right);
  }

  /** Taking one factor out of the middle of a product. */
  lemma {:induction false} ProductMoveFront(x: real, left: seq<real>, right: seq<real>)
    ensures Product(left + ([x] + right)) == x * Product(left + right)
  {
    if left == [] {
      assert left + ([x] + right) == [x] + right;
      assert ([x] + right)[1..] == right;
      assert left + right == right;
    } else {
      assert (left + ([x] + right))[1..] == left[1..] + ([x] + right);
      assert (left + right)[1..] == left[1..] + right;
      ProductMoveFront(x, left[1..], right);
      MulSwap(left[0], x, Product(left[1..] + right));
    }
  }

  lemma MulSwap(p: real, x: real, q: real)
    ensures p * (x * q) == x * (p * q)
  {
  }

  /** The weight does not depend on the order of the terms: any reordering gives the same weight. */
  lemma OptimizeOrderFree(a: seq<real>, b: seq<real>, reductions: seq<string>)
    requires multiset(a) == multiset(b)
    ensures Optimize(a, reductions) == Optimize(b, reductions)
  {
    assert |a| == |multiset(a)| == |multiset(b)| == |b|;
    SumPermutation(a, b);
    ProductPermutation(a, b);
  }

  /** A single term is never multiplied: its weight is itself under "sum" and 0 otherwise. */
  lemma OptimizeSingle(v: real, reductions: seq<string>)
    ensures Optimize([v], reductions) == if "sum" in reductions then v else 0.0
  {
    assert Sum([v]) == v + Sum([]);
  }

  /** With two terms under "sum" and "product" the weight is `a + b + a*b`. */
  lemma OptimizePair(x: real, y: real)
    ensures Optimize([x, y], ["sum", "product"]) == x + y + x * y
  {
    assert [x, y][1..] == [y];
    assert [y][1..] == [];
    assert Sum([y]) == y + Sum([]);
    assert Sum([x, y]) == x + Sum([y]);
    assert Product([y]) == y * Product([]);
    assert Product([x, y]) == x * Product([y]);
  }

  /**
   * `preprocess_optim_params`: rule 1 (no crossover rule among the break
   * rules) and rule 2 (oligos not shuffled) both force one oligo solution
   * and one global solution; otherwise the counts are kept.
   */
  function Preprocess(breakRule: seq<string>, shuffle: bool, numOligo: int, numGlobal: int): (r: (int, int))
  {
    if ("xscaf" !in breakRule && "xstap" !in breakRule) || !shuffle then (1, 1)
    else (numOligo, numGlobal)
  }

  /**
   * Rule 1 (neither "xscaf" nor "xstap" among the break rules) forces (1, 1),
   * and so does rule 2 (no shuffling); when neither fires the counts are
   * kept. The counts change only when a rule fires, and applying the rules
   * twice changes nothing.
   */
  lemma PreprocessMeaning(breakRule: seq<string>, shuffle: bool, numOligo: int, numGlobal: int)
    ensures "xscaf" !in breakRule && "xstap" !in breakRule ==> Preprocess(breakRule, shuffle, numOligo, numGlobal) == (1, 1)
    ensures !shuffle ==> Preprocess(breakRule, shuffle, numOligo, numGlobal) == (1, 1)
    ensures ("xscaf" in breakRule || "xstap" in breakRule) && shuffle ==>
      Preprocess(breakRule, shuffle, numOligo, numGlobal) == (numOligo, numGlobal)
    ensures var r := Preprocess(breakRule, shuffle, numOligo, numGlobal);
      && (r == (numOligo, numGlobal) || r == (1, 1))
      && (r != (numOligo, numGlobal) ==> !shuffle || ("xscaf" !in breakRule && "xstap" !in breakRule))
      && Preprocess(breakRule, shuffle, r.0, r.1) == r
  {
  }
}

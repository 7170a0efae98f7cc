/** The state of a polynomial chaos expansion (`PolynomialChaosExpansion`): its
    configuration, the lazily grown recurrence tables and the per-variable degree
    cache that decides when they are regrown, the multi-indices, the coefficients,
    and the moments read off the coefficients. */
module Expansion {
  import opened PceTypes
  import opened Recurrence

  /** One entry of the `poly_types` option: a family and the variables it serves. */
  datatype FamilyEntry = FamilyEntry(opts: FamilyOpts, varNums: seq<nat>)

  /** Either one family for every variable, given at the top level of the options, or
      a `poly_types` list of families with their variables. */
  datatype BasisOpts =
    | SingleFamily(opts: FamilyOpts)
    | PolyTypes(families: seq<FamilyEntry>)

  /** The configuration options. Of the variable transformation only its number of
      variables matters here; `None` means the option is missing. */
  datatype PceOpts = PceOpts(varTrans: Option<nat>, tolerance: Option<real>, basis: BasisOpts)

  /** A coefficient matrix: one row of `width` quantities of interest per term. */
  datatype CoefMatrix = CoefMatrix(rows: seq<Row>, width: nat)

  /** The expansion object. `typeMap` is the variable-to-family map
      (`basis_type_index_map`), `familyVars` the variables of each family
      (`basis_type_var_indices`) and `tables` the recurrence table of each family
      (`recursion_coeffs`, `None` for the monomial basis). */
  datatype Pce = Pce(
    config: PceOpts,
    numVars: nat,
    tolerance: real,
    maxDegree: seq<int>,
    typeMap: Option<seq<nat>>,
    familyVars: seq<seq<nat>>,
    tables: seq<Option<Table>>,
    indices: Option<seq<MultiIndex>>,
    coefs: Option<CoefMatrix>)

  /** A freshly constructed expansion configured with `opts`: no variable
      transformation is an error; every cached maximum degree starts at -1 so that
      the first multi-indices always build the tables. */
  function Configure(opts: PceOpts): (r: Result<Pce>)
    ensures r.Success? <==> opts.varTrans.Some?
    ensures r.Success? ==> Fresh(r.value) && r.value.numVars == opts.varTrans.value
    ensures r.Success? ==>
              r.value.tolerance == (if opts.tolerance.Some? then opts.tolerance.value else DefaultAccuracyTolerance)
  {
    if opts.varTrans.None? then Failure(ConfigurationError)
    else
      var nv := opts.varTrans.value;
      var tol := if opts.tolerance.Some? then opts.tolerance.value else DefaultAccuracyTolerance;
      Success(Pce(opts, nv, tol, seq(nv, _ => -1), None, [], [], None, None))
  }

  /** Nothing is cached or set yet. */
  predicate Fresh(p: Pce) {
    && |p.maxDegree| == p.numVars
    && (forall d | 0 <= d < p.numVars :: p.maxDegree[d] == -1)
    && p.typeMap.None? && p.familyVars == [] && p.tables == []
    && p.indices.None? && p.coefs.None?
  }

  /* ----- updating the recurrence tables ----- */

  /** Every entry of `vars` indexes a sequence of length `n`. */
  predicate InRange(vars: seq<nat>, n: nat) {
    forall k | 0 <= k < |vars| :: vars[k] < n
  }

  /** The largest of `nc[v]` over the variables `v` in `vars`. */
  function MaxAt(nc: seq<int>, vars: seq<nat>): (r: int)
    requires |vars| > 0 && InRange(vars, |nc|)
    ensures forall k | 0 <= k < |vars| :: nc[vars[k]] <= r
    ensures exists k | 0 <= k < |vars| :: nc[vars[k]] == r
    decreases |vars|
  {
    var n := |vars| - 1;
    if n == 0 then nc[vars[0]]
    else
      var m := MaxAt(nc, vars[..n]);
      assert forall k | 0 <= k < n :: vars[..n][k] == vars[k];
      if m < nc[vars[n]] then nc[vars[n]] else m
  }

  /** The largest entry of a non-empty sequence. */
  function MaxOf(nc: seq<int>): (r: int)
    requires |nc| > 0
    ensures forall k | 0 <= k < |nc| :: nc[k] <= r
    ensures exists k | 0 <= k < |nc| :: nc[k] == r
    decreases |nc|
  {
    var n := |nc| - 1;
    if n == 0 then nc[0]
    else
      var m := MaxOf(nc[..n]);
      assert forall k | 0 <= k < n :: nc[..n][k] == nc[k];
      if m < nc[n] then nc[n] else m
  }

  /** Some variable of `vars` asks for more coefficients than its cached maximum
      degree provides. */
  predicate Requests(nc: seq<int>, maxDegree: seq<int>, vars: seq<nat>)
    requires InRange(vars, |nc|) && InRange(vars, |maxDegree|)
  {
    exists k | 0 <= k < |vars| :: nc[vars[k]] > maxDegree[vars[k]] + 1
  }

  /** `tm` with every variable of `vars` mapped to family `ii`. */
  function Assign(tm: seq<nat>, vars: seq<nat>, ii: nat): (r: seq<nat>)
    ensures |r| == |tm|
    ensures forall v | 0 <= v < |tm| :: r[v] == if v in vars then ii else tm[v]
  {
    seq(|tm|, v requires 0 <= v < |tm| => if v in vars then ii else tm[v])
  }

  /** The last of the families lo..hi-1 whose variables include `v`, or `dflt`. */
  function Owner(lists: seq<seq<nat>>, v: nat, lo: nat, hi: nat, dflt: nat): nat
    requires hi <= |lists|
    decreases hi
  {
    if hi <= lo then dflt
    else if v in lists[hi - 1] then hi - 1
    else Owner(lists, v, lo, hi - 1, dflt)
  }

  /** Assigning family `lo` first and then the later ones is the same as asking for
      the last owner among all of them. */
  lemma {:induction false} OwnerShift(lists: seq<seq<nat>>, v: nat, lo: nat, hi: nat, dflt: nat)
    requires lo < hi <= |lists|
    ensures Owner(lists, v, lo + 1, hi, if v in lists[lo] then lo else dflt) == Owner(lists, v, lo, hi, dflt)
    decreases hi
  {
    if hi - 1 > lo && v !in lists[hi - 1] {
      OwnerShift(lists, v, lo, hi - 1, dflt);
    }
  }

  /** With pairwise disjoint variable lists every listed variable is owned by its family. */
  lemma {:induction false} OwnerDisjoint(lists: seq<seq<nat>>, v: nat, lo: nat, hi: nat, dflt: nat, k: nat)
    requires hi <= |lists| && lo <= k < hi && v in lists[k]
    requires forall a, b | 0 <= a < b < |lists| :: forall w | w in lists[a] :: w !in lists[b]
    ensures Owner(lists, v, lo, hi, dflt) == k
    decreases hi
  {
    if hi - 1 != k {
      assert v !in lists[hi - 1];
      OwnerDisjoint(lists, v, lo, hi - 1, dflt, k);
    }
  }

  /** The variable lists of the families, in order. */
  function VarLists(fams: seq<FamilyEntry>): (r: seq<seq<nat>>)
    ensures |r| == |fams| && forall k | 0 <= k < |fams| :: r[k] == fams[k].varNums
  {
    seq(|fams|, k requires 0 <= k < |fams| => fams[k].varNums)
  }

  /** The table the source would regenerate for family `ii` serving `vars`. */
  function FamilyTable(tol: real, nc: seq<int>, fams: seq<FamilyEntry>, ii: nat, vars: seq<nat>, oe: OrthoError)
    : (r: Result<Option<Table>>)
    requires ii < |fams| && |vars| > 0 && InRange(vars, |nc|)
    ensures r.Success? ==> GetRecursionCoefficients(fams[ii].opts, MaxAt(nc, vars), tol, oe) == r
    ensures r.Success? ==> r.value.Some? || |fams| == 1
  {
    var t :- GetRecursionCoefficients(fams[ii].opts, MaxAt(nc, vars), tol, oe);
    // the monomial basis is allowed only when it is the only family
    if t.None? && |fams| != 1 then Failure(ConfigurationError) else Success(t)
  }

  /** First update of a `poly_types` expansion: every family records its variables,
      builds its table for the largest number of coefficients its variables ask
      for, and claims its variables in the variable-to-family map. */
  function Initialize(p: Pce, nc: seq<int>, fams: seq<FamilyEntry>, ii: nat, oe: OrthoError): (r: Result<Pce>)
    requires p.typeMap.Some?
    ensures r.Success? ==> r.value.typeMap.Some? && |r.value.typeMap.value| == |p.typeMap.value|
    ensures r.Success? ==>
              r.value == p.(familyVars := r.value.familyVars, tables := r.value.tables, typeMap := r.value.typeMap)
    decreases |fams| - ii
  {
    if ii >= |fams| then Success(p)
    else
      var fv := p.familyVars + [fams[ii].varNums];
      if ii >= |fv| then Failure(InvalidArgument)
      else
        var vars := fv[ii];
        if |vars| == 0 || !InRange(vars, |nc|) then Failure(InvalidArgument)
        else
          var t :- FamilyTable(p.tolerance, nc, fams, ii, vars, oe);
          var tm := p.typeMap.value;
          if !InRange(vars, |tm|) then Failure(InvalidArgument)
          else Initialize(p.(familyVars := fv, tables := p.tables + [t], typeMap := Some(Assign(tm, vars, ii))),
                          nc, fams, ii + 1, oe)
  }

  /** What the initializing update promises from family `ii` on, when the families
      before `ii` are the ones recorded so far. */
  predicate Initialized(p: Pce, r: Pce, nc: seq<int>, fams: seq<FamilyEntry>, ii: nat, oe: OrthoError)
    requires p.typeMap.Some? && r.typeMap.Some? && |r.typeMap.value| == |p.typeMap.value| && ii <= |fams|
  {
    && r.familyVars == p.familyVars + VarLists(fams)[ii..]
    && |r.tables| == |p.tables| + |fams| - ii
    && r.tables[..|p.tables|] == p.tables
    && (forall k | ii <= k < |fams| ::
          && |fams[k].varNums| > 0 && InRange(fams[k].varNums, |nc|)
          && FamilyTable(p.tolerance, nc, fams, k, fams[k].varNums, oe) == Success(r.tables[|p.tables| + k - ii]))
    && (forall v | 0 <= v < |p.typeMap.value| ::
          r.typeMap.value[v] == Owner(VarLists(fams), v, ii, |fams|, p.typeMap.value[v]))
  }

  /** One step of the initializing update: recording family `ii` before the later ones. */
  lemma InitializeStep(p: Pce, next: Pce, r: Pce, nc: seq<int>, fams: seq<FamilyEntry>, ii: nat, oe: OrthoError)
    requires p.typeMap.Some? && r.typeMap.Some? && ii < |fams|
    requires |fams[ii].varNums| > 0 && InRange(fams[ii].varNums, |nc|)
    requires InRange(fams[ii].varNums, |p.typeMap.value|)
    requires FamilyTable(p.tolerance, nc, fams, ii, fams[ii].varNums, oe).Success?
    requires next.tolerance == p.tolerance
    requires next.familyVars == p.familyVars + [fams[ii].varNums]
    requires next.tables == p.tables + [FamilyTable(p.tolerance, nc, fams, ii, fams[ii].varNums, oe).value]
    requires next.typeMap == Some(Assign(p.typeMap.value, fams[ii].varNums, ii))
    requires |r.typeMap.value| == |p.typeMap.value|
    requires Initialized(next, r, nc, fams, ii + 1, oe)
    ensures Initialized(p, r, nc, fams, ii, oe)
  {
    VarListsStep(p.familyVars, next.familyVars, r.familyVars, fams, ii);
    InitializeStepTables(p.tolerance, p.tables, next.tables, r.tables, nc, fams, ii, oe);
    InitializeStepOwners(p.typeMap.value, next.typeMap.value, r.typeMap.value, VarLists(fams), ii);
  }

  lemma VarListsStep(fv: seq<seq<nat>>, nfv: seq<seq<nat>>, rfv: seq<seq<nat>>, fams: seq<FamilyEntry>, ii: nat)
    requires ii < |fams| && nfv == fv + [fams[ii].varNums] && rfv == nfv + VarLists(fams)[ii + 1..]
    ensures rfv == fv + VarLists(fams)[ii..]
  {
    assert VarLists(fams)[ii..] == [fams[ii].varNums] + VarLists(fams)[ii + 1..];
  }

  lemma InitializeStepOwners(tm: seq<nat>, next: seq<nat>, r: seq<nat>, lists: seq<seq<nat>>, ii: nat)
    requires ii < |lists| && |next| == |r| == |tm|
    requires next == Assign(tm, lists[ii], ii)
    requires forall v | 0 <= v < |tm| :: r[v] == Owner(lists, v, ii + 1, |lists|, next[v])
    ensures forall v | 0 <= v < |tm| :: r[v] == Owner(lists, v, ii, |lists|, tm[v])
  {
    forall v | 0 <= v < |tm|
      ensures r[v] == Owner(lists, v, ii, |lists|, tm[v])
    {
      OwnerShift(lists, v, ii, |lists|, tm[v]);
    }
  }

  lemma InitializeStepTables(tol: real, pt: seq<Option<Table>>, nt: seq<Option<Table>>, rt: seq<Option<Table>>,
                             nc: seq<int>, fams: seq<FamilyEntry>, ii: nat, oe: OrthoError)
    requires ii < |fams| && |fams[ii].varNums| > 0 && InRange(fams[ii].varNums, |nc|)
    requires FamilyTable(tol, nc, fams, ii, fams[ii].varNums, oe).Success?
    requires nt == pt + [FamilyTable(tol, nc, fams, ii, fams[ii].varNums, oe).value]
    requires |rt| == |nt| + |fams| - (ii + 1) && rt[..|nt|] == nt
    requires forall k | ii + 1 <= k < |fams| ::
               && |fams[k].varNums| > 0 && InRange(fams[k].varNums, |nc|)
               && FamilyTable(tol, nc, fams, k, fams[k].varNums, oe) == Success(rt[|nt| + k - (ii + 1)])
    ensures |rt| == |pt| + |fams| - ii && rt[..|pt|] == pt
    ensures forall k | ii <= k < |fams| ::
              && |fams[k].varNums| > 0 && InRange(fams[k].varNums, |nc|)
              && FamilyTable(tol, nc, fams, k, fams[k].varNums, oe) == Success(rt[|pt| + k - ii])
  {
    assert rt[|pt|] == nt[|pt|];
    assert rt[..|pt|] == nt[..|pt|];
    forall k | ii <= k < |fams|
      ensures |fams[k].varNums| > 0 && InRange(fams[k].varNums, |nc|)
      ensures FamilyTable(tol, nc, fams, k, fams[k].varNums, oe) == Success(rt[|pt| + k - ii])
    {
      if k > ii {
        assert |nt| + k - (ii + 1) == |pt| + k - ii;
      }
    }
  }

  /** The initializing update records every family's variables in order, gives
      family k the table built for the largest request among its variables, and
      maps every variable to the last family that lists it. */
  lemma {:induction false} InitializeSpec(p: Pce, nc: seq<int>, fams: seq<FamilyEntry>, ii: nat, oe: OrthoError)
    requires p.typeMap.Some? && |p.familyVars| == ii <= |fams|
    requires Initialize(p, nc, fams, ii, oe).Success?
    ensures Initialized(p, Initialize(p, nc, fams, ii, oe).value, nc, fams, ii, oe)
    decreases |fams| - ii
  {
    var r := Initialize(p, nc, fams, ii, oe).value;
    if ii < |fams| {
      var vars := fams[ii].varNums;
      assert (p.familyVars + [vars])[ii] == vars;
      var t := FamilyTable(p.tolerance, nc, fams, ii, vars, oe).value;
      var next := p.(familyVars := p.familyVars + [vars], tables := p.tables + [t],
                     typeMap := Some(Assign(p.typeMap.value, vars, ii)));
      assert r == Initialize(next, nc, fams, ii + 1, oe).value;
      InitializeSpec(next, nc, fams, ii + 1, oe);
      InitializeStep(p, next, r, nc, fams, ii, oe);
    } else {
      assert VarLists(fams)[ii..] == [];
    }
  }

  /** Later update of a `poly_types` expansion: a family's table is rebuilt only when
      one of its variables asks for more coefficients than its cached maximum degree
      provides; every family claims its variables again. */
  function Regrow(p: Pce, nc: seq<int>, fams: seq<FamilyEntry>, ii: nat, oe: OrthoError): (r: Result<Pce>)
    requires p.typeMap.Some?
    ensures r.Success? ==> r.value.typeMap.Some? && |r.value.typeMap.value| == |p.typeMap.value|
    ensures r.Success? ==> r.value == p.(tables := r.value.tables, typeMap := r.value.typeMap)
    ensures r.Success? ==> |r.value.tables| == |p.tables|
    decreases |fams| - ii
  {
    if ii >= |fams| then Success(p)
    else if |fams| > |p.familyVars| then Failure(InvalidArgument)
    else
      var vars := p.familyVars[ii];
      if !InRange(vars, |nc|) || !InRange(vars, |p.maxDegree|) then Failure(InvalidArgument)
      else
        var tables :-
          if Requests(nc, p.maxDegree, vars) then
            var t :- FamilyTable(p.tolerance, nc, fams, ii, vars, oe);
            if ii >= |p.tables| then Failure(InvalidArgument) else Success(p.tables[ii := t])
          else Success(p.tables);
        var tm := p.typeMap.value;
        if !InRange(vars, |tm|) then Failure(InvalidArgument)
        else Regrow(p.(tables := tables, typeMap := Some(Assign(tm, vars, ii))), nc, fams, ii + 1, oe)
  }

  /** What the later update promises from family `ii` on: the families that request
      more coefficients get the table built for their largest request, the other
      tables are kept, and each variable goes to the last family listing it. */
  predicate Regrown(p: Pce, r: Pce, nc: seq<int>, fams: seq<FamilyEntry>, ii: nat, oe: OrthoError)
    requires p.typeMap.Some? && r.typeMap.Some? && |r.typeMap.value| == |p.typeMap.value|
  {
    && |r.tables| == |p.tables|
    && (ii < |fams| ==> |fams| <= |p.familyVars|)
    && (forall k | ii <= k < |fams| ::
          && InRange(p.familyVars[k], |nc|) && InRange(p.familyVars[k], |p.maxDegree|)
          && (Requests(nc, p.maxDegree, p.familyVars[k]) ==>
                k < |p.tables| &&
                FamilyTable(p.tolerance, nc, fams, k, p.familyVars[k], oe) == Success(r.tables[k])))
    && (forall k | 0 <= k < |p.tables| ::
          !(ii <= k < |fams| && Requests(nc, p.maxDegree, p.familyVars[k])) ==> r.tables[k] == p.tables[k])
    && (ii < |fams| ==>
          forall v | 0 <= v < |p.typeMap.value| ::
            r.typeMap.value[v] == Owner(p.familyVars, v, ii, |fams|, p.typeMap.value[v]))
    && (ii >= |fams| ==> r.typeMap == p.typeMap)
  }

  /** One step of the later update: family `ii` before the later ones. */
  lemma RegrowStep(p: Pce, next: Pce, r: Pce, nc: seq<int>, fams: seq<FamilyEntry>, ii: nat, oe: OrthoError)
    requires p.typeMap.Some? && r.typeMap.Some? && |r.typeMap.value| == |p.typeMap.value|
    requires ii < |fams| <= |p.familyVars|
    requires InRange(p.familyVars[ii], |nc|) && InRange(p.familyVars[ii], |p.maxDegree|)
    requires InRange(p.familyVars[ii], |p.typeMap.value|)
    requires Requests(nc, p.maxDegree, p.familyVars[ii]) ==>
               ii < |p.tables| && FamilyTable(p.tolerance, nc, fams, ii, p.familyVars[ii], oe).Success?
    requires next == p.(tables := if Requests(nc, p.maxDegree, p.familyVars[ii])
                                  then p.tables[ii := FamilyTable(p.tolerance, nc, fams, ii, p.familyVars[ii], oe).value]
                                  else p.tables,
                        typeMap := Some(Assign(p.typeMap.value, p.familyVars[ii], ii)))
    requires Regrown(next, r, nc, fams, ii + 1, oe)
    ensures Regrown(p, r, nc, fams, ii, oe)
  {
    forall v | 0 <= v < |p.typeMap.value|
      ensures r.typeMap.value[v] == Owner(p.familyVars, v, ii, |fams|, p.typeMap.value[v])
    {
      OwnerShift(p.familyVars, v, ii, |fams|, p.typeMap.value[v]);
    }
  }

  lemma {:induction false} RegrowSpec(p: Pce, nc: seq<int>, fams: seq<FamilyEntry>, ii: nat, oe: OrthoError)
    requires p.typeMap.Some? && Regrow(p, nc, fams, ii, oe).Success?
    ensures Regrown(p, Regrow(p, nc, fams, ii, oe).value, nc, fams, ii, oe)
    decreases |fams| - ii
  {
    if ii < |fams| {
      var vars := p.familyVars[ii];
      var req := Requests(nc, p.maxDegree, vars);
      var tables := if req then p.tables[ii := FamilyTable(p.tolerance, nc, fams, ii, vars, oe).value] else p.tables;
      var next := p.(tables := tables, typeMap := Some(Assign(p.typeMap.value, vars, ii)));
      assert Regrow(p, nc, fams, ii, oe) == Regrow(next, nc, fams, ii + 1, oe);
      RegrowSpec(next, nc, fams, ii + 1, oe);
      RegrowStep(p, next, Regrow(p, nc, fams, ii, oe).value, nc, fams, ii, oe);
    }
  }

  /** `update_recursion_coefficients`: makes sure every family's table can supply
      `nc[v]` coefficients for each of its variables `v`. The first call builds the
      variable-to-family map; with a single family its table is always rebuilt. */
  function UpdateRecursionCoefficients(p: Pce, nc: seq<int>, basis: BasisOpts, oe: OrthoError): (r: Result<Pce>)
    requires p.typeMap.Some? ==> |p.typeMap.value| == p.numVars
    ensures r.Success? ==> r.value.typeMap.Some? && |r.value.typeMap.value| == p.numVars
    ensures r.Success? ==>
              r.value == p.(familyVars := r.value.familyVars, tables := r.value.tables, typeMap := r.value.typeMap)
    ensures r.Success? && basis.SingleFamily? ==>
              |nc| > 0 && |r.value.tables| == 1 &&
              GetRecursionCoefficients(basis.opts, MaxOf(nc), p.tolerance, oe) == Success(r.value.tables[0])
  {
    var initializing := p.typeMap.None?;
    var tm := if initializing then seq(p.numVars, _ => 0) else p.typeMap.value;
    var p1 := p.(typeMap := Some(tm));
    match basis
    case PolyTypes(fams) =>
      if initializing then Initialize(p1, nc, fams, 0, oe) else Regrow(p1, nc, fams, 0, oe)
    case SingleFamily(o) =>
      if |nc| == 0 then Failure(InvalidArgument)
      else
        var t :- GetRecursionCoefficients(o, MaxOf(nc), p.tolerance, oe);
        Success(p1.(tables := [t]))
  }

  /** A later `poly_types` update keeps the families' variables and the number of
      tables, rebuilds exactly the tables of the families some of whose variables
      ask for more coefficients than cached, and keeps the others. */
  lemma UpdateRegrows(p: Pce, nc: seq<int>, fams: seq<FamilyEntry>, oe: OrthoError)
    requires p.typeMap.Some? && |p.typeMap.value| == p.numVars
    requires UpdateRecursionCoefficients(p, nc, PolyTypes(fams), oe).Success?
    ensures var r := UpdateRecursionCoefficients(p, nc, PolyTypes(fams), oe).value;
            && r.familyVars == p.familyVars
            && |r.tables| == |p.tables|
            && (0 < |fams| ==> |fams| <= |p.familyVars|)
            && (forall k | 0 <= k < |fams| ::
                  && InRange(p.familyVars[k], |nc|) && InRange(p.familyVars[k], |p.maxDegree|)
                  && (Requests(nc, p.maxDegree, p.familyVars[k]) ==>
                        k < |p.tables| && FamilyTable(p.tolerance, nc, fams, k, p.familyVars[k], oe) == Success(r.tables[k])))
            && (forall k | 0 <= k < |p.tables| ::
                  !(k < |fams| && Requests(nc, p.maxDegree, p.familyVars[k])) ==> r.tables[k] == p.tables[k])
  {
    RegrowSpec(p, nc, fams, 0, oe);
  }

  /** The first `poly_types` update records every family's variables, gives family k
      the table built for the largest request among its variables, and maps every
      variable to the last family listing it (family 0 when none does). */
  lemma UpdateInitializes(p: Pce, nc: seq<int>, fams: seq<FamilyEntry>, oe: OrthoError)
    requires Fresh(p)
    requires UpdateRecursionCoefficients(p, nc, PolyTypes(fams), oe).Success?
    ensures var r := UpdateRecursionCoefficients(p, nc, PolyTypes(fams), oe).value;
            && r.familyVars == VarLists(fams)
            && |r.tables| == |fams|
            && (forall k | 0 <= k < |fams| ::
                  && |fams[k].varNums| > 0 && InRange(fams[k].varNums, |nc|)
                  && FamilyTable(p.tolerance, nc, fams, k, fams[k].varNums, oe) == Success(r.tables[k]))
            && (forall v | 0 <= v < p.numVars :: r.typeMap.value[v] == Owner(VarLists(fams), v, 0, |fams|, 0))
  {
    var p1 := p.(typeMap := Some(seq(p.numVars, _ => 0)));
    assert UpdateRecursionCoefficients(p, nc, PolyTypes(fams), oe) == Initialize(p1, nc, fams, 0, oe);
    InitializeSpec(p1, nc, fams, 0, oe);
    InitializedFromEmpty(p1, Initialize(p1, nc, fams, 0, oe).value, nc, fams, oe);
  }

  lemma InitializedFromEmpty(p: Pce, r: Pce, nc: seq<int>, fams: seq<FamilyEntry>, oe: OrthoError)
    requires p.typeMap.Some? && r.typeMap.Some? && |r.typeMap.value| == |p.typeMap.value|
    requires p.familyVars == [] && p.tables == [] && (forall v | 0 <= v < |p.typeMap.value| :: p.typeMap.value[v] == 0)
    requires Initialized(p, r, nc, fams, 0, oe)
    ensures r.familyVars == VarLists(fams) && |r.tables| == |fams|
    ensures forall k | 0 <= k < |fams| ::
              && |fams[k].varNums| > 0 && InRange(fams[k].varNums, |nc|)
              && FamilyTable(p.tolerance, nc, fams, k, fams[k].varNums, oe) == Success(r.tables[k])
    ensures forall v | 0 <= v < |p.typeMap.value| :: r.typeMap.value[v] == Owner(VarLists(fams), v, 0, |fams|, 0)
  {
    assert VarLists(fams)[0..] == VarLists(fams);
  }

  /** Pairwise disjoint variable lists, as the options built from a random variable have. */
  predicate DisjointLists(lists: seq<seq<nat>>) {
    forall a, b | 0 <= a < b < |lists| :: forall w | w in lists[a] :: w !in lists[b]
  }

  /** After the first update every variable of a family maps to that family, when the
      families' variables are disjoint; other variables map to family 0. */
  lemma TypeMapCoversFamilies(p: Pce, nc: seq<int>, fams: seq<FamilyEntry>, oe: OrthoError, k: nat, v: nat)
    requires Fresh(p) && DisjointLists(VarLists(fams))
    requires UpdateRecursionCoefficients(p, nc, PolyTypes(fams), oe).Success?
    requires k < |fams| && v in fams[k].varNums && v < p.numVars
    ensures UpdateRecursionCoefficients(p, nc, PolyTypes(fams), oe).value.typeMap.value[v] == k
  {
    UpdateInitializes(p, nc, fams, oe);
    OwnerDisjoint(VarLists(fams), v, 0, |fams|, 0, k);
  }

  /* ----- multi-indices and coefficients ----- */

  /** The index argument of `set_indices`: a 1-D array of degrees (one variable, one
      degree per term) or a 2-D array with one row per variable, given by its columns. */
  datatype IndexArray =
    | Flat(degrees: seq<nat>)
    | Grid(numRows: nat, columns: seq<MultiIndex>)

  predicate WellFormedIndexArray(a: IndexArray) {
    a.Grid? ==> Shaped(a.columns, a.numRows)
  }

  /** The array as (number of rows, columns); a 1-D array becomes one row. */
  function Reshape(a: IndexArray): (r: (nat, seq<MultiIndex>))
    requires WellFormedIndexArray(a)
    ensures Shaped(r.1, r.0)
    ensures a.Flat? ==> r.0 == 1 && |r.1| == |a.degrees| && forall k | 0 <= k < |r.1| :: r.1[k] == [a.degrees[k]]
    ensures a.Grid? ==> r == (a.numRows, a.columns)
  {
    match a
    case Flat(ds) => (1, seq(|ds|, k requires 0 <= k < |ds| => [ds[k]]))
    case Grid(n, cols) => (n, cols)
  }

  /** Some variable's new maximum degree exceeds the cached one. */
  predicate Exceeds(cached: seq<int>, md: seq<nat>)
    requires |cached| == |md|
  {
    exists d | 0 <= d < |md| :: cached[d] < md[d]
  }

  /** The number of coefficients per variable that degrees `md` need. */
  function NeededCoefs(md: seq<nat>): (r: seq<int>)
    ensures |r| == |md| && forall d | 0 <= d < |md| :: r[d] == md[d] + 1
  {
    seq(|md|, d requires 0 <= d < |md| => md[d] + 1)
  }

  /** `set_indices`: stores the multi-indices; when some variable's maximum degree
      exceeds the cached one, regrows the tables and overwrites the cache with the
      new per-variable maximum (so a component of the cache can decrease). */
  function SetIndices(p: Pce, a: IndexArray, oe: OrthoError): (r: Result<Pce>)
    requires WellFormedIndexArray(a)
    requires p.typeMap.Some? ==> |p.typeMap.value| == p.numVars
    ensures Reshape(a).0 != p.numVars || |Reshape(a).1| == 0 || |p.maxDegree| != p.numVars ==> r.Failure?
    ensures r.Success? ==> r.value.indices == Some(Reshape(a).1) && Shaped(Reshape(a).1, p.numVars)
    ensures r.Success? ==> r.value.typeMap.Some? ==> |r.value.typeMap.value| == p.numVars
    ensures r.Success? ==> |r.value.maxDegree| == p.numVars
    ensures r.Success? ==> (r.value.typeMap.Some? || p.typeMap.Some? ==> r.value.typeMap.Some?)
    ensures r.Success? && !Exceeds(p.maxDegree, MaxDegrees(Reshape(a).1, p.numVars)) ==>
              r.value == p.(indices := Some(Reshape(a).1))
    ensures r.Success? && Exceeds(p.maxDegree, MaxDegrees(Reshape(a).1, p.numVars)) ==>
              && r.value.maxDegree == MaxDegrees(Reshape(a).1, p.numVars)
              && r.value.typeMap.Some?
              && UpdateRecursionCoefficients(p.(indices := Some(Reshape(a).1)),
                                             NeededCoefs(MaxDegrees(Reshape(a).1, p.numVars)),
                                             p.config.basis, oe).Success?
              && r.value == UpdateRecursionCoefficients(p.(indices := Some(Reshape(a).1)),
                                             NeededCoefs(MaxDegrees(Reshape(a).1, p.numVars)),
                                             p.config.basis, oe).value.(maxDegree := r.value.maxDegree)
  {
    var (rows, cols) := Reshape(a);
    if rows != p.numVars then Failure(DimensionMismatch)
    else if |cols| == 0 then Failure(InvalidArgument)
    else if |p.maxDegree| != p.numVars then Failure(DimensionMismatch)
    else
      var md := MaxDegrees(cols, p.numVars);
      var p1 := p.(indices := Some(cols));
      if Exceeds(p.maxDegree, md) then
        var p2 :- UpdateRecursionCoefficients(p1, NeededCoefs(md), p.config.basis, oe);
        Success(p2.(maxDegree := md))
      else Success(p1)
  }

  /** Setting the same multi-indices twice is the same as setting them once. */
  lemma SetIndicesIdempotent(p: Pce, a: IndexArray, oe: OrthoError)
    requires WellFormedIndexArray(a)
    requires p.typeMap.Some? ==> |p.typeMap.value| == p.numVars
    requires SetIndices(p, a, oe).Success?
    ensures SetIndices(SetIndices(p, a, oe).value, a, oe) == SetIndices(p, a, oe)
  {
    var r := SetIndices(p, a, oe).value;
    var md := MaxDegrees(Reshape(a).1, p.numVars);
    if Exceeds(p.maxDegree, md) {
      assert !Exceeds(r.maxDegree, md);
    } else {
      assert !Exceeds(r.maxDegree, md);
    }
  }

  /** The first multi-indices set on a freshly configured expansion always build the
      tables and make the cache exactly their per-variable maximum. */
  lemma FirstSetIndicesBuildsTables(p: Pce, a: IndexArray, oe: OrthoError)
    requires Fresh(p) && WellFormedIndexArray(a) && p.numVars > 0
    requires SetIndices(p, a, oe).Success?
    ensures SetIndices(p, a, oe).value.typeMap.Some?
    ensures SetIndices(p, a, oe).value.maxDegree == MaxDegrees(Reshape(a).1, p.numVars)
  {
    var md := MaxDegrees(Reshape(a).1, p.numVars);
    assert p.maxDegree[0] < md[0];
  }

  /** The cache is overwritten, not raised to an elementwise maximum: with cached
      degrees (3, 0), multi-indices of maximum degrees (0, 5) leave the cache at (0, 5). */
  lemma MaxDegreeCanDecrease(p: Pce, oe: OrthoError)
    requires p.numVars == 2 && p.maxDegree == [3, 0] && p.typeMap == Some([0, 0])
    requires p.config.basis == SingleFamily(FamilyOpts(Some("legendre"), None, 0.0, 0.0, 0.0, 0.0, 0, 0.0, 0, 0, [], []))
    ensures SetIndices(p, Grid(2, [[0, 5]]), oe).Success?
    ensures SetIndices(p, Grid(2, [[0, 5]]), oe).value.maxDegree == [0, 5]
  {
    var md := MaxDegrees([[0, 5]], 2);
    assert md[0] == 0 && md[1] == 5;
    assert md == [0, 5];
    assert Exceeds(p.maxDegree, md);
    assert NeededCoefs(md) == [1, 6];
  }

  /** The coefficient argument of `set_coefficients`: a 1-D array or a 2-D matrix. */
  datatype CoefArray =
    | Vector(values: seq<real>)
    | Matrix(rows: seq<Row>, width: nat)

  /** `set_coefficients`: a 2-D matrix with one row per term is stored as a copy. */
  function SetCoefficients(p: Pce, c: CoefArray): (r: Result<Pce>)
    ensures r.Success? <==> c.Matrix? && p.indices.Some? && |c.rows| == |p.indices.value|
    ensures r.Success? ==> r.value == p.(coefs := Some(CoefMatrix(c.rows, c.width)))
  {
    if c.Vector? then Failure(DimensionMismatch)
    else if p.indices.None? then Failure(NotSet)
    else if |c.rows| != |p.indices.value| then Failure(DimensionMismatch)
    else Success(p.(coefs := Some(CoefMatrix(c.rows, c.width))))
  }

  /** `get_coefficients` after `set_coefficients` gives back the matrix that was set. */
  lemma CoefficientsRoundTrip(p: Pce, rows: seq<Row>, width: nat)
    requires p.indices.Some? && |rows| == |p.indices.value|
    ensures SetCoefficients(p, Matrix(rows, width)).Success?
    ensures SetCoefficients(p, Matrix(rows, width)).value.coefs.value.rows == rows
    ensures SetCoefficients(p, Matrix(rows, width)).value.indices == p.indices
  {
  }

  /* ----- moments ----- */

  /** The mean is the coefficient row of the first term. */
  function Mean(p: Pce): (r: Result<Row>)
    ensures r.Success? <==> p.coefs.Some? && |p.coefs.value.rows| > 0
    ensures r.Success? ==> r.value == p.coefs.value.rows[0]
  {
    if p.coefs.None? then Failure(NotSet)
    else if |p.coefs.value.rows| == 0 then Failure(InvalidArgument)
    else Success(p.coefs.value.rows[0])
  }

  /** Entry `q` of every row after the first. */
  function TailColumn(rows: seq<Row>, q: nat): (r: seq<real>)
    requires RowsOfWidth(rows, q + 1) || forall k | 0 <= k < |rows| :: q < |rows[k]|
    ensures |rows| > 0 ==> |r| == |rows| - 1
    ensures forall k | 1 <= k < |rows| :: r[k - 1] == rows[k][q]
  {
    if |rows| == 0 then [] else seq(|rows| - 1, k requires 0 <= k < |rows| - 1 => rows[k + 1][q])
  }

  /** The variance of each quantity of interest is the sum of the squares of the
      coefficients of every term but the first: never negative, and zero exactly
      when all those coefficients vanish. */
  function Variance(p: Pce): (r: Result<Row>)
    requires p.coefs.Some? ==> RowsOfWidth(p.coefs.value.rows, p.coefs.value.width)
    ensures r.Success? <==> p.coefs.Some?
    ensures r.Success? ==> |r.value| == p.coefs.value.width
    ensures r.Success? ==>
              forall q | 0 <= q < |r.value| :: r.value[q] == SumSquares(TailColumn(p.coefs.value.rows, q))
    ensures r.Success? ==> forall q | 0 <= q < |r.value| :: r.value[q] >= 0.0
    ensures r.Success? ==>
              forall q | 0 <= q < |r.value| ::
                r.value[q] == 0.0 <==> forall k | 1 <= k < |p.coefs.value.rows| :: p.coefs.value.rows[k][q] == 0.0
  {
    if p.coefs.None? then Failure(NotSet)
    else
      var c := p.coefs.value;
      var v := seq(c.width, q requires 0 <= q < c.width => SumSquares(TailColumn(c.rows, q)));
      assert forall q | 0 <= q < c.width :: v[q] >= 0.0 by {
        forall q | 0 <= q < c.width ensures v[q] >= 0.0 {
          SumSquaresNonNegative(TailColumn(c.rows, q));
        }
      }
      assert forall q | 0 <= q < c.width ::
               v[q] == 0.0 <==> forall k | 1 <= k < |c.rows| :: c.rows[k][q] == 0.0 by {
        forall q | 0 <= q < c.width
          ensures v[q] == 0.0 <==> forall k | 1 <= k < |c.rows| :: c.rows[k][q] == 0.0
        {
          var col := TailColumn(c.rows, q);
          SumSquaresZero(col);
          assert (forall k | 0 <= k < |col| :: col[k] == 0.0)
                 <==> (forall k | 1 <= k < |c.rows| :: c.rows[k][q] == 0.0) by {
            if forall k | 1 <= k < |c.rows| :: c.rows[k][q] == 0.0 {
              forall k | 0 <= k < |col| ensures col[k] == 0.0 {
                assert col[k] == c.rows[k + 1][q];
              }
            }
          }
        }
      }
      Success(v)
  }

  /** The table that variable `dd` uses: its family's entry in the table list. */
  function TableFor(p: Pce, dd: nat): (r: Result<Table>)
    ensures r.Success? <==>
              && p.typeMap.Some? && dd < |p.typeMap.value| && p.typeMap.value[dd] < |p.tables|
              && p.tables[p.typeMap.value[dd]].Some?
  {
    if p.typeMap.None? || dd >= |p.typeMap.value| || p.typeMap.value[dd] >= |p.tables| then
      Failure(InvalidArgument)
    else if p.tables[p.typeMap.value[dd]].None? then Failure(NotSet)
    else Success(p.tables[p.typeMap.value[dd]].value)
  }

  /* ----- the shape invariant of reachable states ----- */

  /** Shapes every reachable expansion has: one cached degree and (once built) one
      map entry per variable, multi-indices with one degree per variable, and
      coefficient rows of the matrix's width. */
  predicate Valid(p: Pce) {
    && |p.maxDegree| == p.numVars
    && (p.typeMap.Some? ==> |p.typeMap.value| == p.numVars)
    && (p.indices.Some? ==> Shaped(p.indices.value, p.numVars))
    && (p.coefs.Some? ==> RowsOfWidth(p.coefs.value.rows, p.coefs.value.width))
  }

  predicate WellFormedCoefArray(c: CoefArray) {
    c.Matrix? ==> RowsOfWidth(c.rows, c.width)
  }

  lemma ConfigureValid(opts: PceOpts)
    requires Configure(opts).Success?
    ensures Valid(Configure(opts).value)
  {
  }

  lemma SetIndicesValid(p: Pce, a: IndexArray, oe: OrthoError)
    requires Valid(p) && WellFormedIndexArray(a)
    requires SetIndices(p, a, oe).Success?
    ensures Valid(SetIndices(p, a, oe).value)
  {
  }

  /** Regenerating the tables keeps the shape invariant, the options, the variables,
      the multi-indices and the coefficients. */
  lemma UpdateValid(p: Pce, nc: seq<int>, basis: BasisOpts, oe: OrthoError)
    requires Valid(p)
    requires UpdateRecursionCoefficients(p, nc, basis, oe).Success?
    ensures var r := UpdateRecursionCoefficients(p, nc, basis, oe).value;
            Valid(r) && r.typeMap.Some? && r.numVars == p.numVars && r.config == p.config
            && r.tolerance == p.tolerance && r.indices == p.indices && r.coefs == p.coefs
  {
  }

  lemma SetCoefficientsValid(p: Pce, c: CoefArray)
    requires Valid(p) && WellFormedCoefArray(c)
    requires SetCoefficients(p, c).Success?
    ensures Valid(SetCoefficients(p, c).value)
  {
  }
}

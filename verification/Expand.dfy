/** Expansion of constructor lists, round by round until nothing is left to expand. */
module Expand {
  import opened Options
  import opened ExpandSpec
  import opened ExpandMeaning

  // ---------------------------------------------------------------- distributing over alternatives

  lemma PrefixedJoin(a: Expr, x: seq<seq<Expr>>, y: seq<seq<Expr>>)
    ensures Prefixed(a, x + y) == Prefixed(a, x) + Prefixed(a, y)
  {
  }

  lemma {:induction false} CrossJoin(a: seq<Expr>, b: seq<Expr>, rows: seq<seq<Expr>>)
    ensures Cross(a + b, rows) == Cross(a, rows) + Cross(b, rows)
    decreases |a|
  {
    if a == [] {
      assert a + b == b;
    } else {
      assert (a + b)[1..] == a[1..] + b && (a + b)[0] == a[0];
      CrossJoin(a[1..], b, rows);
      assert Prefixed(a[0], rows) + (Cross(a[1..], rows) + Cross(b, rows)) == Cross(a, rows) + Cross(b, rows);
    }
  }

  lemma TimesJoin(a: Option<seq<Expr>>, b: Option<seq<Expr>>, rest: Option<seq<seq<Expr>>>)
    ensures Times(Both(a, b), rest) == Both(Times(a, rest), Times(b, rest))
  {
    if a.Some? && b.Some? && rest.Some? {
      CrossJoin(a.value, b.value, rest.value);
      assert a.value == [] ==>
             a.value + b.value == b.value && [] + Cross(b.value, rest.value) == Cross(b.value, rest.value);
      assert b.value == [] ==>
             a.value + b.value == a.value && Cross(a.value, rest.value) + [] == Cross(a.value, rest.value);
    }
  }

  lemma TimesOne(c: Expr, x: Option<seq<seq<Expr>>>, y: Option<seq<seq<Expr>>>)
    ensures Times(Some([c]), Both(x, y)) == Both(Times(Some([c]), x), Times(Some([c]), y))
  {
    if x.Some? && y.Some? {
      CrossOne(c, x.value);
      CrossOne(c, y.value);
      CrossOne(c, x.value + y.value);
      PrefixedJoin(c, x.value, y.value);
    }
  }

  lemma CrossOne(c: Expr, rows: seq<seq<Expr>>)
    ensures Cross([c], rows) == Prefixed(c, rows)
  {
    assert [c][1..] == [];
    assert Cross([], rows) == [];
  }

  /** The rows with position k replaced by each of some expressions in turn. */
  ghost function ProductOfEach(tl: Option<seq<nat>>, n: nat, i: nat, comps: seq<Expr>, k: nat,
      cs: seq<Expr>): Option<seq<seq<Expr>>>
    requires k < |comps|
    decreases |cs|
  {
    if cs == [] then Some([])
    else Both(Product(tl, n, i, comps[k := cs[0]]), ProductOfEach(tl, n, i, comps, k, cs[1..]))
  }

  /** The parts of an expandable expression; an unevaluable set has none to give. */
  function Parts(e: Expr): Option<seq<Expr>> {
    match e
    case Atom(_) => None
    case List(es) => Some(es)
    case SetOf(_, Unknown) => None
    case SetOf(_, Elements(es)) => Some(es)
  }

  lemma {:induction false} EachAtFirst(tl: Option<seq<nat>>, n: nat, i: nat, comps: seq<Expr>, cs: seq<Expr>)
    requires comps != []
    ensures ProductOfEach(tl, n, i, comps, 0, cs) == Times(AltsOfAll(tl, n, i, cs), Product(tl, n, i + 1, comps[1..]))
    decreases |cs|
  {
    hide Alts, Times;
    var rest := Product(tl, n, i + 1, comps[1..]);
    if cs == [] {
      TimesNothing(rest);
    } else {
      var c := comps[0 := cs[0]];
      assert c[1..] == comps[1..];
      assert Product(tl, n, i, c) == Times(Alts(tl, n, i, cs[0]), rest);
      EachAtFirst(tl, n, i, comps, cs[1..]);
      TimesJoin(Alts(tl, n, i, cs[0]), AltsOfAll(tl, n, i, cs[1..]), rest);
    }
  }

  lemma TimesNothing(rest: Option<seq<seq<Expr>>>)
    ensures Times(Some([]), rest) == Some([])
  {
  }

  lemma {:induction false} EachBehind(tl: Option<seq<nat>>, n: nat, i: nat, comps: seq<Expr>, k: nat, cs: seq<Expr>)
    requires 0 < k < |comps| && !Expandable(tl, n, i, comps[0])
    ensures ProductOfEach(tl, n, i, comps, k, cs) ==
            Times(Some([comps[0]]), ProductOfEach(tl, n, i + 1, comps[1..], k - 1, cs))
    decreases |cs|
  {
    hide Times, Expandable;
    if cs == [] {
      TimesEmpty(comps[0]);
    } else {
      var c := comps[k := cs[0]];
      assert c[1..] == comps[1..][k - 1 := cs[0]] && c[0] == comps[0];
      EachBehind(tl, n, i, comps, k, cs[1..]);
      assert Product(tl, n, i, c) == Times(Some([comps[0]]), Product(tl, n, i + 1, c[1..]));
      TimesOne(comps[0], Product(tl, n, i + 1, c[1..]), ProductOfEach(tl, n, i + 1, comps[1..], k - 1, cs[1..]));
    }
  }

  lemma TimesEmpty(c: Expr)
    ensures Times(Some([c]), Some([])) == Some([])
  {
    CrossOne(c, []);
  }

  /** Expanding the first expandable position does not change the rows. */
  lemma {:induction false} ExpandKeeps(tl: Option<seq<nat>>, n: nat, i: nat, comps: seq<Expr>, k: nat)
    requires k < |comps| && (forall j :: 0 <= j < k ==> !Expandable(tl, n, i + j, comps[j])) &&
             Expandable(tl, n, i + k, comps[k])
    ensures match Parts(comps[k])
            case None => Product(tl, n, i, comps).None?
            case Some(cs) => Product(tl, n, i, comps) == ProductOfEach(tl, n, i, comps, k, cs)
    decreases k
  {
    if k == 0 {
      assert i + k == i;
      var parts := Parts(comps[0]);
      assert Alts(tl, n, i, comps[0]) == if parts.None? then None else AltsOfAll(tl, n, i, parts.value);
      if parts.Some? {
        EachAtFirst(tl, n, i, comps, parts.value);
      }
    } else {
      hide Times;
      assert !Expandable(tl, n, i + 0, comps[0]);
      forall j | 0 <= j < k - 1 ensures !Expandable(tl, n, i + 1 + j, comps[1..][j]) {
        assert !Expandable(tl, n, i + (j + 1), comps[j + 1]);
      }
      ExpandKeeps(tl, n, i + 1, comps[1..], k - 1);
      var parts := Parts(comps[k]);
      assert comps[1..][k - 1] == comps[k];
      if parts.Some? {
        EachBehind(tl, n, i, comps, k, parts.value);
      } else {
        TimesUnknown(comps[0]);
      }
    }
  }

  lemma TimesUnknown(c: Expr)
    ensures Times(Some([c]), None) == None
  {
  }

  /** Nothing to expand: the index is its only row. */
  lemma {:induction false} NothingToExpand(tl: Option<seq<nat>>, n: nat, i: nat, comps: seq<Expr>)
    requires forall j :: 0 <= j < |comps| ==> !Expandable(tl, n, i + j, comps[j])
    ensures Product(tl, n, i, comps) == Some([comps])
    decreases |comps|
  {
    if comps != [] {
      assert !Expandable(tl, n, i + 0, comps[0]);
      forall j | 0 <= j < |comps[1..]| ensures !Expandable(tl, n, i + 1 + j, comps[1..][j]) {
        assert !Expandable(tl, n, i + (j + 1), comps[j + 1]);
      }
      NothingToExpand(tl, n, i + 1, comps[1..]);
      assert i + 0 == i && Alts(tl, n, i, comps[0]) == Some([comps[0]]);
      CrossOne(comps[0], [comps[1..]]);
      assert [comps[0]] + comps[1..] == comps;
      assert Prefixed(comps[0], [comps[1..]]) == [comps];
    }
  }

  // ---------------------------------------------------------------- rows of elements

  lemma RowsJoin(e: Elem, x: seq<seq<Expr>>, y: seq<seq<Expr>>)
    ensures AsElems(e, x + y) == AsElems(e, x) + AsElems(e, y)
  {
  }

  /** One element per part. */
  function Replaced(e: Elem, comps: seq<Expr>, k: nat, cs: seq<Expr>): (r: seq<Elem>)
    requires k < |comps|
    ensures |r| == |cs| && forall j :: 0 <= j < |cs| ==> r[j] == WithIndex(e, comps[k := cs[j]])
  {
    seq(|cs|, j requires 0 <= j < |cs| => WithIndex(e, comps[k := cs[j]]))
  }

  lemma {:induction false} RowsOfEach(t: Expected, e: Elem, comps: seq<Expr>, k: nat, cs: seq<Expr>)
    requires k < |comps| && !Misplaced(t, e) && e.index == List(comps)
    ensures var p := ProductOfEach(TypesFor(t, e), |comps|, 0, comps, k, cs);
            AllRows(t, Replaced(e, comps, k, cs)) == if p.None? then None else Some(AsElems(e, p.value))
    decreases |cs|
  {
    if cs != [] {
      hide Product, Misplaced;
      RowsOfEach(t, e, comps, k, cs[1..]);
      var r := Replaced(e, comps, k, cs);
      assert r[1..] == Replaced(e, comps, k, cs[1..]);
      var x := WithIndex(e, comps[k := cs[0]]);
      SameContext(t, e, comps[k := cs[0]]);
      var p, q := Product(TypesFor(t, e), |comps|, 0, comps[k := cs[0]]),
          ProductOfEach(TypesFor(t, e), |comps|, 0, comps, k, cs[1..]);
      if p.Some? {
        assert AsElems(x, p.value) == AsElems(e, p.value);
        if q.Some? {
          RowsJoin(e, p.value, q.value);
        }
      }
    }
  }

  lemma SameContext(t: Expected, e: Elem, comps: seq<Expr>)
    ensures TypesFor(t, WithIndex(e, comps)) == TypesFor(t, e) &&
            (Misplaced(t, WithIndex(e, comps)) <==> Misplaced(t, e))
  {
  }

  lemma {:induction false} AllRowsJoin(t: Expected, a: seq<Elem>, b: seq<Elem>)
    ensures AllRows(t, a + b) == Both(AllRows(t, a), AllRows(t, b))
    decreases |a|
  {
    hide Rows, Misplaced;
    if a == [] {
      assert a + b == b;
      assert AllRows(t, b).Some? ==> [] + AllRows(t, b).value == AllRows(t, b).value;
    } else {
      assert (a + b)[1..] == a[1..] + b;
      AllRowsJoin(t, a[1..], b);
      var x, y, z := Rows(t, a[0]), AllRows(t, a[1..]), AllRows(t, b);
      assert x.Some? && y.Some? && z.Some? ==> x.value + (y.value + z.value) == x.value + y.value + z.value;
    }
  }

  // ---------------------------------------------------------------- how much is left to expand

  /** The number of expandable nodes below one position. */
  function Nodes(tl: Option<seq<nat>>, n: nat, i: nat, e: Expr): nat
    decreases e, 0
  {
    if !Expandable(tl, n, i, e) then 0
    else if e.List? then 1 + NodesOfAll(tl, n, i, e.es)
    else 1 + NodesOfValue(tl, n, i, e.value)
  }

  function NodesOfValue(tl: Option<seq<nat>>, n: nat, i: nat, v: Value): nat
    decreases v, 0
  {
    if v.Unknown? then 0 else NodesOfAll(tl, n, i, v.es)
  }

  function NodesOfAll(tl: Option<seq<nat>>, n: nat, i: nat, es: seq<Expr>): (r: nat)
    ensures forall j :: 0 <= j < |es| ==> Nodes(tl, n, i, es[j]) <= r
    decreases es, 0
  {
    if es == [] then 0
    else
      assert forall j :: 1 <= j < |es| ==> es[j] == es[1..][j - 1];
      Nodes(tl, n, i, es[0]) + NodesOfAll(tl, n, i, es[1..])
  }

  function CompNodes(tl: Option<seq<nat>>, n: nat, i: nat, comps: seq<Expr>): nat
    decreases |comps|
  {
    if comps == [] then 0 else Nodes(tl, n, i, comps[0]) + CompNodes(tl, n, i + 1, comps[1..])
  }

  function ElemNodes(t: Expected, e: Elem): nat {
    if e.index.List? then CompNodes(TypesFor(t, e), |e.index.es|, 0, e.index.es) else 0
  }

  function MostNodes(t: Expected, op: seq<Elem>): (r: nat)
    ensures forall j :: 0 <= j < |op| ==> ElemNodes(t, op[j]) <= r
  {
    if op == [] then 0
    else
      assert forall j :: 1 <= j < |op| ==> op[j] == op[1..][j - 1];
      var m := MostNodes(t, op[1..]);
      if ElemNodes(t, op[0]) > m then ElemNodes(t, op[0]) else m
  }

  lemma {:induction false} MostBelow(t: Expected, op: seq<Elem>, m: nat)
    requires m > 0 && forall j :: 0 <= j < |op| ==> ElemNodes(t, op[j]) < m
    ensures MostNodes(t, op) < m
  {
    if op != [] {
      MostBelow(t, op[1..], m);
    }
  }

  lemma {:induction false} CompReplaced(tl: Option<seq<nat>>, n: nat, i: nat, comps: seq<Expr>, k: nat, c: Expr)
    requires k < |comps| && Nodes(tl, n, i + k, c) < Nodes(tl, n, i + k, comps[k])
    ensures CompNodes(tl, n, i, comps[k := c]) < CompNodes(tl, n, i, comps)
    decreases k
  {
    if k > 0 {
      assert comps[k := c][1..] == comps[1..][k - 1 := c];
      CompReplaced(tl, n, i + 1, comps[1..], k - 1, c);
    } else {
      assert comps[k := c][1..] == comps[1..];
    }
  }

  /** Nodes are left exactly where a position is expandable. */
  lemma {:induction false} NoNodes(tl: Option<seq<nat>>, n: nat, i: nat, comps: seq<Expr>)
    ensures CompNodes(tl, n, i, comps) == 0 <==> forall j :: 0 <= j < |comps| ==> !Expandable(tl, n, i + j, comps[j])
    decreases |comps|
  {
    if comps != [] {
      NoNodes(tl, n, i + 1, comps[1..]);
      assert Nodes(tl, n, i, comps[0]) == 0 <==> !Expandable(tl, n, i + 0, comps[0]);
      if forall j :: 0 <= j < |comps| ==> !Expandable(tl, n, i + j, comps[j]) {
        forall j | 0 <= j < |comps[1..]| ensures !Expandable(tl, n, i + 1 + j, comps[1..][j]) {
          assert !Expandable(tl, n, i + (j + 1), comps[j + 1]);
        }
      }
      if CompNodes(tl, n, i, comps) == 0 {
        forall j | 0 <= j < |comps| ensures !Expandable(tl, n, i + j, comps[j]) {
          if j > 0 {
            assert !Expandable(tl, n, i + 1 + (j - 1), comps[1..][j - 1]);
          }
        }
      }
    }
  }

  // ---------------------------------------------------------------- one element

  /** The index with one position replaced, the yield carried along. */
  method ExpandOneElem(comps: seq<Expr>, like: Elem, c: Expr, offset: nat) returns (r: Elem)
    requires offset < |comps|
    ensures r == WithIndex(like, comps[offset := c])
  {
    var es := [];
    for i := 0 to |comps|
      invariant es == comps[offset := c][..i]
    {
      if i == offset {
        es := es + [c];
      } else {
        es := es + [comps[i]];
      }
    }
    assert comps[offset := c][..|comps|] == comps[offset := c];
    r := match like case Plain(_) => Plain(List(es)) case Assign(_, y) => Assign(List(es), y);
  }

  /** The first position to expand, |comps| if there is none. */
  method FindOffset(tl: Option<seq<nat>>, comps: seq<Expr>) returns (k: nat)
    ensures k <= |comps| && forall j :: 0 <= j < k ==> !Expandable(tl, |comps|, j, comps[j])
    ensures k < |comps| ==> Expandable(tl, |comps|, k, comps[k])
  {
    k := 0;
    while k < |comps|
      invariant 0 <= k <= |comps| && forall j :: 0 <= j < k ==> !Expandable(tl, |comps|, j, comps[j])
    {
      if comps[k].List? {
        break;
      }
      if comps[k].SetOf? {
        if tl.None? || |tl.value| != |comps| || tl.value[k] != comps[k].ty {
          break;
        }
      }
      k := k + 1;
    }
  }

  /** What became of an element: nothing to expand, expanded into others, dropped, or in error. */
  datatype Outcome = Kept | Expanded(into: seq<Elem>) | Dropped | Error

  ghost predicate Becomes(t: Expected, e: Elem, o: Outcome) {
    match o
    case Dropped => Misplaced(t, e)
    case Kept => !Misplaced(t, e) && ElemNodes(t, e) == 0 && Rows(t, e) == Some([e])
    case Error => !Misplaced(t, e) && ElemNodes(t, e) > 0 && Rows(t, e).None?
    case Expanded(into) =>
      && !Misplaced(t, e) && ElemNodes(t, e) > 0 && AllRows(t, into) == Rows(t, e)
      && forall j :: 0 <= j < |into| ==> !Misplaced(t, into[j]) && ElemNodes(t, into[j]) < ElemNodes(t, e)
  }

  lemma KeptWhole(t: Expected, e: Elem)
    requires !Misplaced(t, e)
    requires e.index.List? ==> forall j :: 0 <= j < |e.index.es| ==>
             !Expandable(TypesFor(t, e), |e.index.es|, 0 + j, e.index.es[j])
    ensures Becomes(t, e, Kept)
  {
    if e.index.List? {
      NothingToExpand(TypesFor(t, e), |e.index.es|, 0, e.index.es);
      NoNodes(TypesFor(t, e), |e.index.es|, 0, e.index.es);
      assert AsElems(e, [e.index.es]) == [e];
    }
  }

  lemma ExpandedAt(t: Expected, e: Elem, k: nat)
    requires !Misplaced(t, e) && e.index.List? && k < |e.index.es|
    requires forall j :: 0 <= j < k ==> !Expandable(TypesFor(t, e), |e.index.es|, 0 + j, e.index.es[j])
    requires Expandable(TypesFor(t, e), |e.index.es|, 0 + k, e.index.es[k])
    ensures match Parts(e.index.es[k])
            case None => Becomes(t, e, Error)
            case Some(cs) => Becomes(t, e, Expanded(Replaced(e, e.index.es, k, cs)))
  {
    var tl, comps := TypesFor(t, e), e.index.es;
    var n := |comps|;
    ExpandKeeps(tl, n, 0, comps, k);
    NoNodes(tl, n, 0, comps);
    var parts := Parts(comps[k]);
    if parts.Some? {
      RowsOfEach(t, e, comps, k, parts.value);
      var into := Replaced(e, comps, k, parts.value);
      forall j | 0 <= j < |into| ensures !Misplaced(t, into[j]) && ElemNodes(t, into[j]) < ElemNodes(t, e) {
        PartsHaveFewer(tl, n, k, comps[k], j);
        SameContext(t, e, comps[k := parts.value[j]]);
        CompReplaced(tl, n, 0, comps, k, parts.value[j]);
      }
    }
  }

  lemma PartsHaveFewer(tl: Option<seq<nat>>, n: nat, i: nat, e: Expr, j: nat)
    requires Expandable(tl, n, i, e) && Parts(e).Some? && j < |Parts(e).value|
    ensures Nodes(tl, n, i, Parts(e).value[j]) < Nodes(tl, n, i, e)
  {
  }

  method ExpandOpElem(t: Expected, e: Elem) returns (o: Outcome)
    ensures Becomes(t, e, o)
  {
    hide Rows, AllRows, ElemNodes, Becomes;
    if e.Assign? && t != NoType && !t.TableOf? {
      o := Dropped;
      IsDropped(t, e);
      return;
    }
    if !e.index.List? {
      KeptWhole(t, e);
      return Kept;
    }
    var comps := e.index.es;
    var k := FindOffset(TypesFor(t, e), comps);
    if k == |comps| {
      KeptWhole(t, e);
      return Kept;
    }
    ExpandedAt(t, e, k);
    var parts := Parts(comps[k]);
    if parts.None? {
      return Error;
    }
    var into := [];
    for j := 0 to |parts.value|
      invariant into == Replaced(e, comps, k, parts.value)[..j]
    {
      var x := ExpandOneElem(comps, e, parts.value[j], k);
      into := into + [x];
    }
    assert into == Replaced(e, comps, k, parts.value);
    o := Expanded(into);
  }

  lemma IsDropped(t: Expected, e: Elem)
    requires Misplaced(t, e)
    ensures Becomes(t, e, Dropped)
  {
  }

  // ---------------------------------------------------------------- the whole list

  /** Some well-placed element has something to expand. */
  ghost predicate Expands(t: Expected, op: seq<Elem>) {
    exists j :: 0 <= j < |op| && !Misplaced(t, op[j]) && ElemNodes(t, op[j]) > 0
  }

  ghost predicate WellPlaced(t: Expected, op: seq<Elem>) { forall j :: 0 <= j < |op| ==> !Misplaced(t, op[j]) }

  /** One round has dealt with the first i elements. */
  ghost predicate Round(t: Expected, op: seq<Elem>, i: nat, next: seq<Elem>, did: bool)
    requires i <= |op|
  {
    && AllRows(t, next) == AllRows(t, op[..i])
    && WellPlaced(t, next)
    && (did <==> Expands(t, op[..i]))
    && (forall j :: 0 <= j < |next| ==> ElemNodes(t, next[j]) == 0 || ElemNodes(t, next[j]) < MostNodes(t, op))
  }

  lemma RoundStep(t: Expected, op: seq<Elem>, i: nat, next: seq<Elem>, did: bool, o: Outcome)
    requires i < |op| && Round(t, op, i, next, did) && Becomes(t, op[i], o) && !o.Error?
    ensures Round(t, op, i + 1, next + (match o case Dropped => [] case Kept => [op[i]] case Expanded(into) => into),
            did || o.Expanded?)
  {
    hide Rows, AllRows, ElemNodes, MostNodes;
    var e := op[i];
    var more := match o case Dropped => [] case Kept => [e] case Expanded(into) => into;
    assert op[..i + 1] == op[..i] + [e];
    AllRowsJoin(t, op[..i], [e]);
    AllRowsJoin(t, next, more);
    RowsOfOne(t, e);
    if o.Dropped? {
      RowsOfNone(t);
    }
    assert AllRows(t, more) == AllRows(t, [e]);
    ExpandsMore(t, op[..i], e);
    assert ElemNodes(t, e) <= MostNodes(t, op);
  }

  lemma RowsOfOne(t: Expected, e: Elem)
    ensures AllRows(t, [e]) == if Misplaced(t, e) then Some([]) else Rows(t, e)
  {
    assert [e][1..] == [];
    var r := Rows(t, e);
    assert r.Some? ==> r.value + [] == r.value;
  }

  lemma RowsOfNone(t: Expected)
    ensures AllRows(t, []) == Some([])
  {
  }

  lemma ExpandsMore(t: Expected, op: seq<Elem>, e: Elem)
    ensures Expands(t, op + [e]) <==> Expands(t, op) || (!Misplaced(t, e) && ElemNodes(t, e) > 0)
  {
    hide ElemNodes, Misplaced;
    assert (op + [e])[|op|] == e;
    assert forall j :: 0 <= j < |op| ==> (op + [e])[j] == op[j];
  }

  /** The list an expansion gives: the rows of the well-placed elements, but the list itself, misplaced
      elements included, if no well-placed element has anything to expand. */
  ghost function Result(t: Expected, op: seq<Elem>): Option<seq<Elem>> {
    if Expands(t, op) then AllRows(t, op) else Some(op)
  }

  /** Expansion fails if a well-placed element does. Otherwise it gives what stands in the list, elements with
      sets of the table's own index types unchanged. */
  ghost predicate Means(t: Expected, op: seq<Elem>, r: seq<Elem>, err: bool) {
    && (err <==> exists j :: 0 <= j < |op| && !Misplaced(t, op[j]) && Fails(t, op[j], 0))
    && (!err ==> forall x :: x in r <==> StandsIn(t, op, x))
    && (!err ==> forall j :: 0 <= j < |op| && OwnSets(t, op[j]) ==> op[j] in r)
  }

  lemma ResultMeans(t: Expected, op: seq<Elem>, r: seq<Elem>, err: bool)
    requires err <==> Result(t, op).None?
    requires err <==> AllRows(t, op).None?
    requires !err ==> Some(r) == Result(t, op)
    ensures Means(t, op, r, err)
  {
    hide Result, AllRows, Fails, Misplaced, StandsIn, OwnSets;
    AllRowsFail(t, op);
    if !err {
      ResultIs(t, op);
      OwnSetsStay(t, op);
    }
  }

  /** Expand until nothing is left to expand. */
  method ExpandOp(t: Expected, op: seq<Elem>) returns (r: seq<Elem>, err: bool)
    ensures err <==> Result(t, op).None?
    ensures !err ==> Some(r) == Result(t, op)
    ensures err <==> AllRows(t, op).None?
    ensures Means(t, op, r, err)
    decreases MostNodes(t, op)
  {
    hide Means;
    hide Rows, AllRows, ElemNodes, MostNodes, Becomes, Round, Expands;
    var next, did := [], false;
    RoundStarts(t, op);
    for i := 0 to |op|
      invariant Round(t, op, i, next, did)
    {
      var o := ExpandOpElem(t, op[i]);
      if o.Error? {
        ErrorStays(t, op, i, o);
        IdleRows(t, op);
        ResultMeans(t, op, op, true);
        return op, true;
      }
      RoundStep(t, op, i, next, did, o);
      match o {
        case Dropped =>
          assert next + [] == next;
        case Kept =>
          next := next + [op[i]];
        case Expanded(into) =>
          next, did := next + into, true;
      }
    }
    assert op[..|op|] == op;
    if did {
      RoundEnds(t, op, next);
      r, err := ExpandOp(t, next);
      Unexpanded(t, next);
    } else {
      RoundIdle(t, op, next);
      r, err := op, false;
    }
    ResultMeans(t, op, r, err);
  }

  lemma RoundStarts(t: Expected, op: seq<Elem>)
    ensures Round(t, op, 0, [], false)
  {
    assert op[..0] == [];
  }

  lemma ErrorStays(t: Expected, op: seq<Elem>, i: nat, o: Outcome)
    requires i < |op| && Becomes(t, op[i], o) && o.Error?
    ensures AllRows(t, op).None?
  {
    assert op == op[..i] + ([op[i]] + op[i + 1..]);
    AllRowsJoin(t, op[..i], [op[i]] + op[i + 1..]);
    AllRowsJoin(t, [op[i]], op[i + 1..]);
    RowsOfOne(t, op[i]);
  }

  lemma RoundEnds(t: Expected, op: seq<Elem>, next: seq<Elem>)
    requires Round(t, op, |op|, next, true)
    ensures AllRows(t, next) == AllRows(t, op) && WellPlaced(t, next) && Expands(t, op)
    ensures MostNodes(t, next) < MostNodes(t, op)
  {
    hide Rows, AllRows, ElemNodes, Misplaced;
    assert op[..|op|] == op;
    var j :| 0 <= j < |op| && !Misplaced(t, op[j]) && ElemNodes(t, op[j]) > 0;
    MostBelow(t, next, MostNodes(t, op));
  }

  lemma RoundIdle(t: Expected, op: seq<Elem>, next: seq<Elem>)
    requires Round(t, op, |op|, next, false)
    ensures AllRows(t, op).Some? && !Expands(t, op)
  {
    assert op[..|op|] == op;
    IdleRows(t, op);
  }

  lemma {:induction false} IdleRows(t: Expected, op: seq<Elem>)
    ensures !Expands(t, op) ==> AllRows(t, op).Some? && (WellPlaced(t, op) ==> AllRows(t, op).value == op)
  {
    hide ElemNodes, Misplaced, Rows;
    if op != [] && !Expands(t, op) {
      assert forall j :: 0 <= j < |op[1..]| ==> op[1..][j] == op[j + 1];
      IdleRows(t, op[1..]);
      if !Misplaced(t, op[0]) {
        assert ElemNodes(t, op[0]) == 0;
        NoNodesKept(t, op[0]);
      }
      assert op == [op[0]] + op[1..];
      assert WellPlaced(t, op) ==> !Misplaced(t, op[0]);
    }
  }

  lemma NoNodesKept(t: Expected, e: Elem)
    requires !Misplaced(t, e) && ElemNodes(t, e) == 0
    ensures Rows(t, e) == Some([e])
  {
    if e.index.List? {
      NoNodes(TypesFor(t, e), |e.index.es|, 0, e.index.es);
    }
    KeptWhole(t, e);
  }

  /** With every element well placed, the result is the rows of the input whether or not anything was
      expanded. */
  lemma Unexpanded(t: Expected, op: seq<Elem>)
    requires WellPlaced(t, op)
    ensures !Expands(t, op) ==> AllRows(t, op) == Some(op)
  {
    IdleRows(t, op);
  }

  // ---------------------------------------------------------------- the result

  lemma {:induction false} AltsDone(tl: Option<seq<nat>>, n: nat, i: nat, e: Expr)
    requires Alts(tl, n, i, e).Some?
    ensures forall a :: a in Alts(tl, n, i, e).value ==> !Expandable(tl, n, i, a)
    decreases e, 1
  {
    if Expandable(tl, n, i, e) {
      match e {
        case List(es) =>
          AltsOfAllDone(tl, n, i, es);
        case SetOf(_, v) =>
          AltsOfValueDone(tl, n, i, v);
      }
    }
  }

  lemma {:induction false} AltsOfValueDone(tl: Option<seq<nat>>, n: nat, i: nat, v: Value)
    requires AltsOfValue(tl, n, i, v).Some?
    ensures forall a :: a in AltsOfValue(tl, n, i, v).value ==> !Expandable(tl, n, i, a)
    decreases v, 1
  {
    AltsOfAllDone(tl, n, i, v.es);
  }

  lemma {:induction false} AltsOfAllDone(tl: Option<seq<nat>>, n: nat, i: nat, es: seq<Expr>)
    requires AltsOfAll(tl, n, i, es).Some?
    ensures forall a :: a in AltsOfAll(tl, n, i, es).value ==> !Expandable(tl, n, i, a)
    decreases es, 0
  {
    if es != [] {
      hide Alts, Expandable;
      AltsDone(tl, n, i, es[0]);
      AltsOfAllDone(tl, n, i, es[1..]);
    }
  }

  lemma {:induction false} RowsDone(tl: Option<seq<nat>>, n: nat, i: nat, comps: seq<Expr>, row: seq<Expr>)
    requires Product(tl, n, i, comps).Some? && TakesOneOfEach(tl, n, i, comps, row)
    ensures |row| == |comps| && CompNodes(tl, n, i, row) == 0
    decreases |comps|
  {
    if comps != [] {
      AltsDone(tl, n, i, comps[0]);
      hide Alts;
      RowsDone(tl, n, i + 1, comps[1..], row[1..]);
    }
  }

  /** What the rows of a list are: elements with nothing left to expand, each a choice of one alternative
      for every position of some well-placed element, with that element's yield. */
  lemma {:induction false} RowsAre(t: Expected, op: seq<Elem>, x: Elem)
    requires AllRows(t, op).Some?
    ensures x in AllRows(t, op).value <==> exists j :: 0 <= j < |op| && !Misplaced(t, op[j]) && RowOf(t, op[j], x)
    ensures x in AllRows(t, op).value ==> !Misplaced(t, x) && ElemNodes(t, x) == 0
  {
    hide Misplaced, ElemNodes, RowOf, Rows;
    if op != [] {
      assert forall j :: 0 <= j < |op[1..]| ==> op[1..][j] == op[j + 1];
      RowsAre(t, op[1..], x);
      if !Misplaced(t, op[0]) {
        RowIs(t, op[0], x);
      }
      if exists j :: 0 <= j < |op[1..]| && !Misplaced(t, op[1..][j]) && RowOf(t, op[1..][j], x) {
        var j :| 0 <= j < |op[1..]| && !Misplaced(t, op[1..][j]) && RowOf(t, op[1..][j], x);
        assert !Misplaced(t, op[j + 1]) && RowOf(t, op[j + 1], x);
      }
      if exists j :: 0 <= j < |op| && !Misplaced(t, op[j]) && RowOf(t, op[j], x) {
        var j :| 0 <= j < |op| && !Misplaced(t, op[j]) && RowOf(t, op[j], x);
        if j > 0 {
          assert !Misplaced(t, op[1..][j - 1]) && RowOf(t, op[1..][j - 1], x);
        }
      }
    }
  }

  lemma RowIs(t: Expected, e: Elem, x: Elem)
    requires Rows(t, e).Some? && !Misplaced(t, e)
    ensures x in Rows(t, e).value <==> RowOf(t, e, x)
    ensures x in Rows(t, e).value ==> !Misplaced(t, x) && ElemNodes(t, x) == 0
  {
    hide RowOf;
    RowsMean(t, e, x);
    if e.index.List? && x in Rows(t, e).value {
      var tl, comps := TypesFor(t, e), e.index.es;
      var n := |comps|;
      var rows := Product(tl, n, 0, comps).value;
      hide Product;
      var k :| 0 <= k < |rows| && AsElems(e, rows)[k] == x;
      assert x.index.es == rows[k] && rows[k] in rows;
      ProductMembers(tl, n, 0, comps, x.index.es);
      RowsDone(tl, n, 0, comps, x.index.es);
    }
  }

  /** A list of rows is known unless a well-placed element fails. */
  lemma {:induction false} AllRowsFail(t: Expected, op: seq<Elem>)
    ensures AllRows(t, op).None? <==> exists j :: 0 <= j < |op| && !Misplaced(t, op[j]) && Fails(t, op[j], 0)
  {
    hide Misplaced, Rows, Fails;
    if op != [] {
      assert forall j :: 0 <= j < |op[1..]| ==> op[1..][j] == op[j + 1];
      AllRowsFail(t, op[1..]);
      RowsMean(t, op[0], op[0]);
      if exists j :: 0 <= j < |op[1..]| && !Misplaced(t, op[1..][j]) && Fails(t, op[1..][j], 0) {
        var j :| 0 <= j < |op[1..]| && !Misplaced(t, op[1..][j]) && Fails(t, op[1..][j], 0);
        assert !Misplaced(t, op[j + 1]) && Fails(t, op[j + 1], 0);
      }
      if exists j :: 0 <= j < |op| && !Misplaced(t, op[j]) && Fails(t, op[j], 0) {
        var j :| 0 <= j < |op| && !Misplaced(t, op[j]) && Fails(t, op[j], 0);
        if j > 0 {
          assert !Misplaced(t, op[1..][j - 1]) && Fails(t, op[1..][j - 1], 0);
        }
      }
    }
  }

  /** The elements a list stands for when misplaced ones count as well. */
  ghost function FullRows(t: Expected, op: seq<Elem>): Option<seq<Elem>> {
    if op == [] then Some([]) else Both(Rows(t, op[0]), FullRows(t, op[1..]))
  }

  lemma {:induction false} MisplacedRows(t: Expected, op: seq<Elem>)
    requires AllRows(t, op).Some?
    ensures FullRows(t, op).Some? ==> |AllRows(t, op).value| <= |FullRows(t, op).value|
    ensures FullRows(t, op) == AllRows(t, op) <==>
            forall j :: 0 <= j < |op| && Misplaced(t, op[j]) ==> Rows(t, op[j]) == Some([])
  {
    hide Misplaced, Rows;
    if op != [] {
      assert forall j :: 0 <= j < |op[1..]| ==> op[1..][j] == op[j + 1];
      MisplacedRows(t, op[1..]);
      BothSame(Rows(t, op[0]), AllRows(t, op[1..]), FullRows(t, op[1..]));
      assert (forall j :: 0 <= j < |op| && Misplaced(t, op[j]) ==> Rows(t, op[j]) == Some([])) <==>
             (Misplaced(t, op[0]) ==> Rows(t, op[0]) == Some([])) &&
             (forall j :: 0 <= j < |op[1..]| && Misplaced(t, op[1..][j]) ==> Rows(t, op[1..][j]) == Some([]));
    }
  }

  lemma BothSame<T>(r: Option<seq<T>>, a: Option<seq<T>>, f: Option<seq<T>>)
    requires a.Some? && (f.Some? ==> |a.value| <= |f.value|)
    ensures Both(r, f) == a <==> r == Some([]) && f == a
    ensures r.Some? ==> (Both(r, f) == Both(r, a) <==> f == a)
  {
    if r.Some? && f.Some? {
      var x, y, z := r.value, a.value, f.value;
      assert |x| == 0 ==> x == [] && x + z == z;
      assert (x + y)[|x|..] == y && (x + z)[|x|..] == z;
    }
  }

  /** A list with nothing to expand anywhere stands for itself. */
  lemma {:induction false} DoneRows(t: Expected, op: seq<Elem>)
    requires forall x :: x in op ==> !Misplaced(t, x) && ElemNodes(t, x) == 0
    ensures FullRows(t, op) == Some(op)
  {
    hide Misplaced, ElemNodes, Rows;
    if op != [] {
      assert op[0] in op;
      NoNodesKept(t, op[0]);
      DoneRows(t, op[1..]);
      assert [op[0]] + op[1..] == op;
    }
  }

  /** Some well-placed element has a position to open. */
  ghost predicate AnyOpens(t: Expected, op: seq<Elem>) {
    exists j :: 0 <= j < |op| && !Misplaced(t, op[j]) && Opens(t, op[j])
  }

  /** What is in the list that an expansion gives: the rows of the well-placed elements, or the elements
      themselves if nothing is opened. */
  ghost predicate StandsIn(t: Expected, op: seq<Elem>, x: Elem) {
    if AnyOpens(t, op) then exists j :: 0 <= j < |op| && !Misplaced(t, op[j]) && RowOf(t, op[j], x) else x in op
  }

  lemma OpensIs(t: Expected, e: Elem)
    ensures ElemNodes(t, e) > 0 <==> Opens(t, e)
  {
    if e.index.List? {
      var es := e.index.es;
      NoNodes(TypesFor(t, e), |es|, 0, es);
      forall i | 0 <= i < |es| ensures Open(t, e, i, es[i]) <==> Expandable(TypesFor(t, e), |es|, 0 + i, es[i]) {
        OpenIs(t, e, i, es[i]);
      }
    }
  }

  lemma AnyOpensIs(t: Expected, op: seq<Elem>)
    ensures Expands(t, op) <==> AnyOpens(t, op)
  {
    hide Misplaced, ElemNodes, Opens;
    forall j | 0 <= j < |op| ensures ElemNodes(t, op[j]) > 0 <==> Opens(t, op[j]) {
      OpensIs(t, op[j]);
    }
  }

  /** What the result of an expansion consists of. It has nothing left to expand unless it is the list
      itself and a misplaced element of it has. */
  lemma ResultIs(t: Expected, op: seq<Elem>)
    requires Result(t, op).Some?
    ensures forall x :: x in Result(t, op).value <==> StandsIn(t, op, x)
    ensures (forall x :: x in Result(t, op).value ==> !Opens(t, x)) <==>
            AnyOpens(t, op) || forall j :: 0 <= j < |op| && Misplaced(t, op[j]) ==> !Opens(t, op[j])
  {
    hide Misplaced, ElemNodes, RowOf, AllRows, Opens;
    AnyOpensIs(t, op);
    if Expands(t, op) {
      forall x
        ensures x in AllRows(t, op).value <==> exists j :: 0 <= j < |op| && !Misplaced(t, op[j]) && RowOf(t, op[j], x)
        ensures x in AllRows(t, op).value ==> !Opens(t, x)
      {
        RowsAre(t, op, x);
        OpensIs(t, x);
      }
    } else if forall x :: x in op ==> !Opens(t, x) {
      forall j | 0 <= j < |op| ensures !Opens(t, op[j]) {
        assert op[j] in op;
      }
    }
  }

  /** An element of a table constructor with a set of the table's own index type at every position. */
  ghost predicate OwnSets(t: Expected, e: Elem) {
    && e.Assign? && t.TableOf? && e.index.List? && |e.index.es| == |t.index|
    && forall i :: 0 <= i < |t.index| ==> e.index.es[i].SetOf? && e.index.es[i].ty == t.index[i]
  }

  lemma OwnSetsStay(t: Expected, op: seq<Elem>)
    requires Result(t, op).Some?
    ensures forall j :: 0 <= j < |op| && OwnSets(t, op[j]) ==> op[j] in Result(t, op).value
  {
    ResultIs(t, op);
    hide Result, Fails, RowOf;
    forall j | 0 <= j < |op| && OwnSets(t, op[j]) ensures op[j] in Result(t, op).value {
      assert !Opens(t, op[j]);
      StaysWhole(t, op[j]);
      assert !Misplaced(t, op[j]) && RowOf(t, op[j], op[j]);
      assert StandsIn(t, op, op[j]);
    }
  }

  /** The result stands for the same rows as the list, misplaced elements counted, exactly when nothing
      is expanded or no misplaced element stands for any row. */
  lemma LosesRows(t: Expected, op: seq<Elem>)
    requires Result(t, op).Some?
    ensures FullRows(t, Result(t, op).value) == FullRows(t, op) <==>
            !Expands(t, op) || forall j :: 0 <= j < |op| && Misplaced(t, op[j]) ==> Rows(t, op[j]) == Some([])
  {
    hide Misplaced, ElemNodes, Rows, AllRows, FullRows;
    if Expands(t, op) {
      var r := AllRows(t, op).value;
      forall x | x in r ensures !Misplaced(t, x) && ElemNodes(t, x) == 0 {
        RowsAre(t, op, x);
      }
      DoneRows(t, r);
      MisplacedRows(t, op);
    }
  }

  /** Two elements, the first misplaced: expanding the second loses the first. */
  lemma MisplacedIsLost()
    ensures var t, lost, other := OtherType, Assign(Atom(0), Atom(1)), Plain(List([List([Atom(2)])]));
            && Expands(t, [lost, other]) && Result(t, [lost, other]) == Some([Plain(List([Atom(2)]))])
            && FullRows(t, [lost, other]) == Some([lost, Plain(List([Atom(2)]))])
  {
    var t, lost, other := OtherType, Assign(Atom(0), Atom(1)), Plain(List([List([Atom(2)])]));
    var comps := [List([Atom(2)])];
    assert Alts(None, 1, 0, Atom(2)) == Some([Atom(2)]);
    assert AltsOfAll(None, 1, 0, [Atom(2)]) == Some([Atom(2)]) by {
      assert [Atom(2)][1..] == [];
      assert AltsOfAll(None, 1, 0, []) == Some([]);
      assert [Atom(2)] + [] == [Atom(2)];
    }
    assert Alts(None, 1, 0, comps[0]) == Some([Atom(2)]);
    assert comps[1..] == [];
    CrossOne(Atom(2), [[]]);
    assert [Atom(2)] + [] == [Atom(2)];
    assert Product(None, 1, 1, []) == Some([[]]);
    assert Prefixed(Atom(2), [[]]) == [[Atom(2)]];
    assert Product(None, 1, 0, comps) == Some([[Atom(2)]]);
    assert AsElems(other, [[Atom(2)]]) == [Plain(List([Atom(2)]))];
    assert [lost, other][1..] == [other];
    RowsOfOne(t, other);
    assert [other][1..] == [];
    var row := Plain(List([Atom(2)]));
    assert Rows(t, other) == Some([row]) && Rows(t, lost) == Some([lost]);
    assert [row] + [] == [row] && [lost] + [row] == [lost, row];
    assert FullRows(t, [other]) == Some([row]);
    assert ElemNodes(t, [lost, other][1]) > 0;
  }

  /** One misplaced element: nothing is expanded, and its index still holds a list. */
  lemma MisplacedIsKept()
    ensures var t, op := OtherType, [Assign(List([List([Atom(2)])]), Atom(1))];
            Result(t, op) == Some(op) && ElemNodes(t, op[0]) > 0
  {
    var t, op := OtherType, [Assign(List([List([Atom(2)])]), Atom(1))];
    assert Misplaced(t, op[0]);
  }
}

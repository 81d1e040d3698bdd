/** Constructor lists: what rows an element with lists and sets in its index stands for. */
module ExpandSpec {
  import opened Options

  /** An expression: anything not looked into, a list, or an expression of a set type, with the
      elements it evaluates to unless it depends on local variables. Types are known by number. */
  datatype Expr = Atom(id: nat) | List(es: seq<Expr>) | SetOf(ty: nat, value: Value)

  datatype Value = Unknown | Elements(es: seq<Expr>)

  /** A constructor element: an index, or an index with a yield. */
  datatype Elem = Plain(index: Expr) | Assign(index: Expr, yielded: Expr)

  /** The type the constructor was given, if any. */
  datatype Expected = NoType | TableOf(index: seq<nat>) | ListOf(types: seq<nat>) | OtherType

  /** An element with a yield, where the type given is not a table. */
  predicate Misplaced(t: Expected, e: Elem) { e.Assign? && t != NoType && !t.TableOf? }

  /** The types expected at the positions of an element's index. */
  function TypesFor(t: Expected, e: Elem): Option<seq<nat>> {
    if e.Assign? then (if t.TableOf? then Some(t.index) else None)
    else if t.ListOf? then Some(t.types) else None
  }

  /** A list is always expanded, a set unless it is what is expected at position i of n. */
  predicate Expandable(tl: Option<seq<nat>>, n: nat, i: nat, e: Expr) {
    || e.List?
    || (e.SetOf? && (tl.None? || |tl.value| != n || i >= n || tl.value[i] != e.ty))
  }

  // ---------------------------------------------------------------- alternatives

  /** The alternatives one position of an index stands for; none are known of a set that cannot be
      evaluated. */
  function Alts(tl: Option<seq<nat>>, n: nat, i: nat, e: Expr): Option<seq<Expr>>
    decreases e, 0
  {
    if !Expandable(tl, n, i, e) then Some([e])
    else if e.List? then AltsOfAll(tl, n, i, e.es)
    else AltsOfValue(tl, n, i, e.value)
  }

  function AltsOfValue(tl: Option<seq<nat>>, n: nat, i: nat, v: Value): Option<seq<Expr>>
    decreases v, 0
  {
    if v.Unknown? then None else AltsOfAll(tl, n, i, v.es)
  }

  function AltsOfAll(tl: Option<seq<nat>>, n: nat, i: nat, es: seq<Expr>): Option<seq<Expr>>
    decreases es, 0
  {
    if es == [] then Some([]) else Both(Alts(tl, n, i, es[0]), AltsOfAll(tl, n, i, es[1..]))
  }

  function Both<T>(a: Option<seq<T>>, b: Option<seq<T>>): Option<seq<T>> {
    if a.None? || b.None? then None else Some(a.value + b.value)
  }

  // ---------------------------------------------------------------- rows

  function Prefixed(a: Expr, rows: seq<seq<Expr>>): (r: seq<seq<Expr>>)
    ensures |r| == |rows| && forall k :: 0 <= k < |r| ==> r[k] == [a] + rows[k]
  {
    seq(|rows|, k requires 0 <= k < |rows| => [a] + rows[k])
  }

  function Cross(alts: seq<Expr>, rows: seq<seq<Expr>>): seq<seq<Expr>> {
    if alts == [] then [] else Prefixed(alts[0], rows) + Cross(alts[1..], rows)
  }

  /** The rows of positions i on, first position slowest. A position with no alternatives leaves no
      rows, whatever follows it. */
  function Product(tl: Option<seq<nat>>, n: nat, i: nat, comps: seq<Expr>): Option<seq<seq<Expr>>>
    decreases |comps|
  {
    if comps == [] then Some([[]])
    else Times(Alts(tl, n, i, comps[0]), Product(tl, n, i + 1, comps[1..]))
  }

  function Times(alts: Option<seq<Expr>>, rest: Option<seq<seq<Expr>>>): Option<seq<seq<Expr>>> {
    if alts.None? then None
    else if alts.value == [] then Some([])
    else if rest.None? then None
    else Some(Cross(alts.value, rest.value))
  }

  /** The index replaced, the yield carried along. */
  function WithIndex(e: Elem, comps: seq<Expr>): Elem { e.(index := List(comps)) }

  function AsElems(e: Elem, rows: seq<seq<Expr>>): (r: seq<Elem>)
    ensures |r| == |rows| && forall k :: 0 <= k < |r| ==> r[k] == WithIndex(e, rows[k])
  {
    seq(|rows|, k requires 0 <= k < |rows| => WithIndex(e, rows[k]))
  }

  /** The elements an element stands for; an index that is not a list stands for itself. */
  function Rows(t: Expected, e: Elem): Option<seq<Elem>> {
    if !e.index.List? then Some([e])
    else
      match Product(TypesFor(t, e), |e.index.es|, 0, e.index.es)
      case None => None
      case Some(rows) => Some(AsElems(e, rows))
  }

  /** The elements a whole list stands for, misplaced ones left out. */
  function AllRows(t: Expected, op: seq<Elem>): Option<seq<Elem>> {
    if op == [] then Some([])
    else if Misplaced(t, op[0]) then AllRows(t, op[1..])
    else Both(Rows(t, op[0]), AllRows(t, op[1..]))
  }

  // ---------------------------------------------------------------- the product is Cartesian

  lemma {:induction false} CrossMembers(alts: seq<Expr>, rows: seq<seq<Expr>>, row: seq<Expr>)
    ensures row in Cross(alts, rows) <==> row != [] && row[0] in alts && row[1..] in rows
  {
    if alts != [] {
      CrossMembers(alts[1..], rows, row);
      assert alts == [alts[0]] + alts[1..];
      var p := Prefixed(alts[0], rows);
      if row in p {
        var k :| 0 <= k < |p| && p[k] == row;
        assert row[1..] == rows[k];
      }
      if row != [] && row[0] == alts[0] && row[1..] in rows {
        var k :| 0 <= k < |rows| && rows[k] == row[1..];
        assert p[k] == row;
      }
    }
  }

  /** A row that takes one alternative at each position. */
  ghost predicate TakesOneOfEach(tl: Option<seq<nat>>, n: nat, i: nat, comps: seq<Expr>, row: seq<Expr>)
    decreases |comps|
  {
    if comps == [] then row == []
    else
      && row != [] && Alts(tl, n, i, comps[0]).Some? && row[0] in Alts(tl, n, i, comps[0]).value
      && TakesOneOfEach(tl, n, i + 1, comps[1..], row[1..])
  }

  /** The rows of an index are exactly the choices of one alternative at each position. */
  lemma {:induction false} ProductMembers(tl: Option<seq<nat>>, n: nat, i: nat, comps: seq<Expr>, row: seq<Expr>)
    requires Product(tl, n, i, comps).Some?
    ensures row in Product(tl, n, i, comps).value <==> TakesOneOfEach(tl, n, i, comps, row)
    decreases |comps|
  {
    if comps != [] {
      hide Alts, Cross;
      var alts := Alts(tl, n, i, comps[0]);
      if alts.value != [] {
        if row != [] {
          ProductMembers(tl, n, i + 1, comps[1..], row[1..]);
        }
        CrossMembers(alts.value, Product(tl, n, i + 1, comps[1..]).value, row);
      }
    }
  }
}

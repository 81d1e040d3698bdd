/** What the elements of a constructor stand for, said without computing it: a row takes from every position of an
    index something that a way through lists and sets leads to. */
module ExpandMeaning {
  import opened Options
  import opened ExpandSpec

  /** A set of this type at position i is what the table's index types, or the set's, ask for there. */
  predicate Wanted(t: Expected, e: Elem, i: nat, ty: nat)
    requires e.index.List?
  {
    var n := |e.index.es|;
    || (e.Assign? && t.TableOf? && |t.index| == n && i < n && t.index[i] == ty)
    || (e.Plain? && t.ListOf? && |t.types| == n && i < n && t.types[i] == ty)
  }

  /** Lists, and sets that are not wanted as they are, are opened. */
  predicate Open(t: Expected, e: Elem, i: nat, x: Expr)
    requires e.index.List?
  {
    x.List? || (x.SetOf? && !Wanted(t, e, i, x.ty))
  }

  /** c is listed in a list, or is in a set. */
  predicate Child(x: Expr, c: Expr) {
    (x.List? && c in x.es) || (x.SetOf? && x.value.Elements? && c in x.value.es)
  }

  /** A way down through what is opened. */
  ghost predicate Way(t: Expected, e: Elem, i: nat, path: seq<Expr>)
    requires e.index.List?
    ensures Way(t, e, i, path) ==> path != []
  {
    path != [] && forall k :: 0 <= k < |path| - 1 ==> Open(t, e, i, path[k]) && Child(path[k], path[k + 1])
  }

  /** A way from x to something that is not opened. */
  ghost predicate Leads(t: Expected, e: Elem, i: nat, x: Expr, a: Expr)
    requires e.index.List?
  {
    !Open(t, e, i, a) && exists path :: Way(t, e, i, path) && path[0] == x && path[|path| - 1] == a
  }

  /** A way from x to a set that has to be opened and cannot be evaluated. */
  ghost predicate Stuck(t: Expected, e: Elem, i: nat, x: Expr)
    requires e.index.List?
  {
    exists path :: Way(t, e, i, path) && path[0] == x && StuckAt(t, e, i, path[|path| - 1])
  }

  predicate StuckAt(t: Expected, e: Elem, i: nat, x: Expr)
    requires e.index.List?
  {
    x.SetOf? && x.value.Unknown? && Open(t, e, i, x)
  }

  /** The row x of element e: the same yield, and at every position something its expression leads to. */
  ghost predicate RowOf(t: Expected, e: Elem, x: Elem) {
    if !e.index.List? then x == e
    else
      && x.index.List? && |x.index.es| == |e.index.es|
      && (x.Plain? <==> e.Plain?) && (x.Assign? ==> x.yielded == e.yielded)
      && forall i :: 0 <= i < |e.index.es| ==> Leads(t, e, i, e.index.es[i], x.index.es[i])
  }

  /** A position of e from i on is stuck, and those before it lead somewhere. */
  ghost predicate Fails(t: Expected, e: Elem, i: nat) {
    e.index.List? && exists k :: i <= k < |e.index.es| && FailsAt(t, e, i, k)
  }

  ghost predicate FailsAt(t: Expected, e: Elem, i: nat, k: nat)
    requires e.index.List? && k < |e.index.es|
  {
    && Stuck(t, e, k, e.index.es[k])
    && forall j :: i <= j < k ==> !Stuck(t, e, j, e.index.es[j]) && LeadsSomewhere(t, e, j)
  }

  ghost predicate LeadsSomewhere(t: Expected, e: Elem, i: nat)
    requires e.index.List? && i < |e.index.es|
  {
    exists a :: Leads(t, e, i, e.index.es[i], a)
  }

  /** Some position has to be opened. */
  predicate Opens(t: Expected, e: Elem) {
    e.index.List? && exists i :: 0 <= i < |e.index.es| && Open(t, e, i, e.index.es[i])
  }

  // ---------------------------------------------------------------- ways

  lemma OpenIs(t: Expected, e: Elem, i: nat, x: Expr)
    requires e.index.List? && i < |e.index.es|
    ensures Open(t, e, i, x) <==> Expandable(TypesFor(t, e), |e.index.es|, i, x)
  {
  }

  lemma WayOn(t: Expected, e: Elem, i: nat, x: Expr, path: seq<Expr>)
    requires e.index.List? && Way(t, e, i, path) && Open(t, e, i, x) && Child(x, path[0])
    ensures Way(t, e, i, [x] + path)
  {
    var all := [x] + path;
    forall k | 0 <= k < |all| - 1 ensures Open(t, e, i, all[k]) && Child(all[k], all[k + 1]) {
      if k > 0 {
        assert all[k] == path[k - 1] && all[k + 1] == path[k];
      }
    }
  }

  lemma WayBack(t: Expected, e: Elem, i: nat, path: seq<Expr>)
    requires e.index.List? && Way(t, e, i, path) && |path| > 1
    ensures Open(t, e, i, path[0]) && Child(path[0], path[1]) && Way(t, e, i, path[1..])
  {
    var rest := path[1..];
    forall k | 0 <= k < |rest| - 1 ensures Open(t, e, i, rest[k]) && Child(rest[k], rest[k + 1]) {
      assert rest[k] == path[k + 1] && rest[k + 1] == path[(k + 1) + 1];
    }
  }

  lemma LeadsDown(t: Expected, e: Elem, i: nat, x: Expr, a: Expr)
    requires e.index.List? && Leads(t, e, i, x, a)
    ensures if Open(t, e, i, x) then exists c :: Child(x, c) && Leads(t, e, i, c, a) else a == x
  {
    hide Open, Child, Way;
    var path :| Way(t, e, i, path) && path[0] == x && path[|path| - 1] == a;
    if |path| > 1 {
      WayBack(t, e, i, path);
      var rest := path[1..];
      assert rest[0] == path[1] && rest[|rest| - 1] == a;
      assert Leads(t, e, i, path[1], a);
    }
  }

  lemma LeadsUp(t: Expected, e: Elem, i: nat, x: Expr, c: Expr, a: Expr)
    requires e.index.List? && Open(t, e, i, x) && Child(x, c) && Leads(t, e, i, c, a)
    ensures Leads(t, e, i, x, a)
  {
    hide Open, Child, Way;
    var path :| Way(t, e, i, path) && path[0] == c && path[|path| - 1] == a;
    WayOn(t, e, i, x, path);
    var all := [x] + path;
    assert all[0] == x && all[|all| - 1] == a;
  }

  /** What an opened expression leads to is what its children lead to. */
  lemma LeadsTurn(t: Expected, e: Elem, i: nat, x: Expr, a: Expr)
    requires e.index.List?
    ensures Leads(t, e, i, x, a) <==>
            if !Open(t, e, i, x) then a == x else exists c :: Child(x, c) && Leads(t, e, i, c, a)
  {
    hide Open, Child, Way, Leads;
    if Leads(t, e, i, x, a) {
      LeadsDown(t, e, i, x, a);
    }
    if !Open(t, e, i, x) {
      LeadsSelf(t, e, i, x);
    } else if exists c :: Child(x, c) && Leads(t, e, i, c, a) {
      var c :| Child(x, c) && Leads(t, e, i, c, a);
      LeadsUp(t, e, i, x, c, a);
    }
  }

  lemma LeadsSelf(t: Expected, e: Elem, i: nat, x: Expr)
    requires e.index.List? && !Open(t, e, i, x)
    ensures Leads(t, e, i, x, x)
  {
    hide Open;
    assert Way(t, e, i, [x]) && [x][0] == x && [x][|[x]| - 1] == x;
  }

  lemma StuckTurn(t: Expected, e: Elem, i: nat, x: Expr)
    requires e.index.List?
    ensures Stuck(t, e, i, x) <==>
            StuckAt(t, e, i, x) || (Open(t, e, i, x) && exists c :: Child(x, c) && Stuck(t, e, i, c))
  {
    hide Open, Child, StuckAt;
    if Stuck(t, e, i, x) {
      var path :| Way(t, e, i, path) && path[0] == x && StuckAt(t, e, i, path[|path| - 1]);
      if |path| > 1 {
        WayBack(t, e, i, path);
        assert path[1..][0] == path[1] && path[1..][|path| - 2] == path[|path| - 1];
        assert Stuck(t, e, i, path[1]);
      }
    }
    if StuckAt(t, e, i, x) {
      assert Way(t, e, i, [x]) && [x][0] == x && [x][|[x]| - 1] == x;
    } else if Open(t, e, i, x) && exists c :: Child(x, c) && Stuck(t, e, i, c) {
      var c :| Child(x, c) && Stuck(t, e, i, c);
      var path :| Way(t, e, i, path) && path[0] == c && StuckAt(t, e, i, path[|path| - 1]);
      WayOn(t, e, i, x, path);
      var all := [x] + path;
      assert all[0] == x && all[|all| - 1] == path[|path| - 1];
    }
  }

  // ---------------------------------------------------------------- alternatives

  /** The alternatives of an expression are what it leads to; there are none known exactly if it is stuck. */
  lemma {:induction false} AltsMean(t: Expected, e: Elem, i: nat, x: Expr)
    requires e.index.List? && i < |e.index.es|
    ensures var alts := Alts(TypesFor(t, e), |e.index.es|, i, x);
            && (alts.None? <==> Stuck(t, e, i, x))
            && (alts.Some? ==> forall a :: a in alts.value <==> Leads(t, e, i, x, a))
    decreases x, 1
  {
    hide Stuck, Leads, Open, Expandable, TypesFor;
    OpenIs(t, e, i, x);
    StuckTurn(t, e, i, x);
    forall a ensures Leads(t, e, i, x, a) <==>
                     if !Open(t, e, i, x) then a == x else exists c :: Child(x, c) && Leads(t, e, i, c, a) {
      LeadsTurn(t, e, i, x, a);
    }
    if Open(t, e, i, x) {
      match x {
        case Atom(_) =>
          NotOpen(t, e, i, x);
        case List(es) =>
          AltsOfAllMean(t, e, i, es);
        case SetOf(_, v) =>
          AltsOfValueMean(t, e, i, x, v);
      }
    }
  }

  lemma NotOpen(t: Expected, e: Elem, i: nat, x: Expr)
    requires e.index.List? && x.Atom?
    ensures !Open(t, e, i, x)
  {
  }

  lemma {:induction false} AltsOfValueMean(t: Expected, e: Elem, i: nat, x: Expr, v: Value)
    requires e.index.List? && i < |e.index.es| && x.SetOf? && x.value == v && Open(t, e, i, x)
    ensures var alts := AltsOfValue(TypesFor(t, e), |e.index.es|, i, v);
            && (alts.None? <==> StuckAt(t, e, i, x) || exists c :: Child(x, c) && Stuck(t, e, i, c))
            && (alts.Some? ==> forall a :: a in alts.value <==> exists c :: Child(x, c) && Leads(t, e, i, c, a))
    decreases v, 1
  {
    hide Stuck, Leads, Open, TypesFor;
    if v.Elements? {
      AltsOfAllMean(t, e, i, v.es);
    }
  }

  lemma {:induction false} AltsOfAllMean(t: Expected, e: Elem, i: nat, es: seq<Expr>)
    requires e.index.List? && i < |e.index.es|
    ensures var alts := AltsOfAll(TypesFor(t, e), |e.index.es|, i, es);
            && (alts.None? <==> exists c :: c in es && Stuck(t, e, i, c))
            && (alts.Some? ==> forall a :: a in alts.value <==> exists c :: c in es && Leads(t, e, i, c, a))
    decreases es, 0
  {
    if es != [] {
      hide Stuck, Leads, Alts, TypesFor;
      AltsMean(t, e, i, es[0]);
      AltsOfAllMean(t, e, i, es[1..]);
      assert es == [es[0]] + es[1..];
    }
  }

  // ---------------------------------------------------------------- rows

  /** The row takes something that each position from i on leads to. */
  ghost predicate Takes(t: Expected, e: Elem, i: nat, row: seq<Expr>)
    requires e.index.List? && i <= |e.index.es|
  {
    i + |row| == |e.index.es| && forall k :: i <= k < |e.index.es| ==> Leads(t, e, k, e.index.es[k], row[k - i])
  }

  lemma TakesTurn(t: Expected, e: Elem, i: nat, row: seq<Expr>)
    requires e.index.List? && i < |e.index.es|
    ensures Takes(t, e, i, row) <==>
            row != [] && Leads(t, e, i, e.index.es[i], row[0]) && Takes(t, e, i + 1, row[1..])
  {
    hide Leads;
    if row != [] && Takes(t, e, i + 1, row[1..]) && Leads(t, e, i, e.index.es[i], row[0]) {
      forall k | i <= k < |e.index.es| ensures Leads(t, e, k, e.index.es[k], row[k - i]) {
        assert k > i ==> row[1..][k - (i + 1)] == row[k - i];
      }
    }
    if Takes(t, e, i, row) {
      forall k | i + 1 <= k < |e.index.es| ensures Leads(t, e, k, e.index.es[k], row[1..][k - (i + 1)]) {
        assert row[1..][k - (i + 1)] == row[k - i];
      }
    }
  }

  lemma FailsTurn(t: Expected, e: Elem, i: nat)
    requires e.index.List? && i < |e.index.es|
    ensures Fails(t, e, i) <==>
            Stuck(t, e, i, e.index.es[i]) || (LeadsSomewhere(t, e, i) && Fails(t, e, i + 1))
  {
    hide Stuck, LeadsSomewhere;
    if Stuck(t, e, i, e.index.es[i]) {
      assert FailsAt(t, e, i, i);
    } else {
      assert !FailsAt(t, e, i, i);
      if Fails(t, e, i) {
        var k :| i <= k < |e.index.es| && FailsAt(t, e, i, k);
        assert i < k && FailsAt(t, e, i + 1, k);
      }
      if LeadsSomewhere(t, e, i) && Fails(t, e, i + 1) {
        var k :| i + 1 <= k < |e.index.es| && FailsAt(t, e, i + 1, k);
        assert FailsAt(t, e, i, k);
      }
    }
  }

  /** The rows of an index from position i on. */
  lemma {:induction false} ProductMeans(t: Expected, e: Elem, i: nat, row: seq<Expr>)
    requires e.index.List? && i <= |e.index.es|
    ensures var rows := Product(TypesFor(t, e), |e.index.es|, i, e.index.es[i..]);
            && (rows.None? <==> Fails(t, e, i))
            && (rows.Some? ==> (row in rows.value <==> Takes(t, e, i, row)))
    decreases |e.index.es| - i
  {
    var es, tl := e.index.es, TypesFor(t, e);
    var n := |es|;
    var comps := es[i..];
    if i < n {
      hide Alts, TypesFor, Leads, Stuck, Fails, Takes, Cross;
      assert comps[0] == es[i] && comps[1..] == es[i + 1..];
      AltsMean(t, e, i, es[i]);
      FailsTurn(t, e, i);
      TakesTurn(t, e, i, row);
      var alts, rest := Alts(tl, n, i, es[i]), Product(tl, n, i + 1, es[i + 1..]);
      assert Product(tl, n, i, comps) == Times(alts, rest);
      ProductMeans(t, e, i + 1, if row == [] then [] else row[1..]);
      if alts.Some? {
        assert LeadsSomewhere(t, e, i) <==> alts.value != [] by {
          if alts.value != [] {
            assert alts.value[0] in alts.value;
          }
        }
        if rest.Some? {
          CrossMembers(alts.value, rest.value, row);
        }
      }
    }
  }

  /** What an element stands for: nothing known exactly if it fails, and otherwise its rows. */
  lemma RowsMean(t: Expected, e: Elem, x: Elem)
    ensures Rows(t, e).None? <==> Fails(t, e, 0)
    ensures Rows(t, e).Some? ==> (x in Rows(t, e).value <==> RowOf(t, e, x))
  {
    if e.index.List? {
      var es := e.index.es;
      assert es[0..] == es;
      hide Leads, Stuck, Fails, TypesFor;
      var row := if x.index.List? then x.index.es else [];
      ProductMeans(t, e, 0, row);
      var p := Product(TypesFor(t, e), |es|, 0, es);
      hide Product;
      if p.Some? {
        var rows, elems := p.value, AsElems(e, p.value);
        if x in elems {
          var k :| 0 <= k < |elems| && elems[k] == x;
          assert rows[k] == row && rows[k] in rows;
          TakesRow(t, e, x);
        }
        if RowOf(t, e, x) {
          TakesRow(t, e, x);
          var k :| 0 <= k < |rows| && rows[k] == row;
          assert elems[k] == x;
        }
      }
    }
  }

  lemma TakesRow(t: Expected, e: Elem, x: Elem)
    requires e.index.List? && x.index.List?
    ensures RowOf(t, e, x) <==> x == WithIndex(e, x.index.es) && Takes(t, e, 0, x.index.es)
  {
    hide Leads;
    if x == WithIndex(e, x.index.es) && Takes(t, e, 0, x.index.es) {
      forall i | 0 <= i < |e.index.es| ensures Leads(t, e, i, e.index.es[i], x.index.es[i]) {
        assert x.index.es[i - 0] == x.index.es[i];
      }
    }
  }

  // ---------------------------------------------------------------- elements that stay as they are

  /** An element with nothing to open is its only row. */
  lemma StaysWhole(t: Expected, e: Elem)
    requires !Opens(t, e)
    ensures !Fails(t, e, 0) && forall x :: RowOf(t, e, x) <==> x == e
  {
    if e.index.List? {
      var es := e.index.es;
      forall i | 0 <= i < |es|
        ensures !Stuck(t, e, i, es[i]) && forall a :: Leads(t, e, i, es[i], a) <==> a == es[i]
      {
        assert !Open(t, e, i, es[i]);
        StuckTurn(t, e, i, es[i]);
        forall a ensures Leads(t, e, i, es[i], a) <==> a == es[i] {
          LeadsTurn(t, e, i, es[i], a);
        }
      }
      hide Leads, Stuck;
      forall x ensures RowOf(t, e, x) <==> x == e {
        if RowOf(t, e, x) {
          assert x.index.es == es;
        }
      }
    }
  }

  // ---------------------------------------------------------------- the order of rows

  lemma {:induction false} CrossAt(alts: seq<Expr>, rows: seq<seq<Expr>>, a: nat, b: nat)
    requires a < |alts| && b < |rows|
    ensures |Cross(alts, rows)| == |alts| * |rows| && a * |rows| + b < |alts| * |rows|
    ensures Cross(alts, rows)[a * |rows| + b] == [alts[a]] + rows[b]
    decreases |alts|
  {
    var m, head, tail := |rows|, Prefixed(alts[0], rows), Cross(alts[1..], rows);
    assert Cross(alts, rows) == head + tail;
    CrossLength(alts, rows);
    Places(a, |alts|, m, b);
    if a > 0 {
      CrossAt(alts[1..], rows, a - 1, b);
      Places(a - 1, |alts| - 1, m, b);
      hide Cross;
      var k := (a - 1) * m + b;
      assert a * m + b == k + m && (head + tail)[m + k] == tail[k];
    }
  }

  lemma Places(a: nat, n: nat, m: nat, b: nat)
    requires a < n && b < m
    ensures a * m + b < n * m && (a + 1) * m == a * m + m
  {
    assert (a + 1) * m <= n * m;
  }

  lemma {:induction false} CrossLength(alts: seq<Expr>, rows: seq<seq<Expr>>)
    ensures |Cross(alts, rows)| == |alts| * |rows|
  {
    if alts != [] {
      CrossLength(alts[1..], rows);
      assert (|alts| - 1) * |rows| + |rows| == |alts| * |rows|;
    }
  }

  /** Rows are listed by the first position, then by the second, and so on. */
  lemma RowAt(tl: Option<seq<nat>>, n: nat, i: nat, comps: seq<Expr>, a: nat, b: nat)
    requires comps != [] && Alts(tl, n, i, comps[0]).Some? && Product(tl, n, i + 1, comps[1..]).Some?
    requires a < |Alts(tl, n, i, comps[0]).value| && b < |Product(tl, n, i + 1, comps[1..]).value|
    ensures Product(tl, n, i, comps).Some?
    ensures var alts, rest := Alts(tl, n, i, comps[0]).value, Product(tl, n, i + 1, comps[1..]).value;
            var rows := Product(tl, n, i, comps).value;
            && |rows| == |alts| * |rest| && a * |rest| + b < |rows|
            && rows[a * |rest| + b] == [alts[a]] + rest[b]
  {
    hide Alts, Cross;
    var alts, rest := Alts(tl, n, i, comps[0]).value, Product(tl, n, i + 1, comps[1..]).value;
    assert Product(tl, n, i, comps) == Some(Cross(alts, rest));
    CrossAt(alts, rest, a, b);
  }

  /** The alternatives of a list or set are those of its parts, in their order. */
  lemma {:induction false} AltsInOrder(tl: Option<seq<nat>>, n: nat, i: nat, x: seq<Expr>, y: seq<Expr>)
    ensures AltsOfAll(tl, n, i, x + y) == Both(AltsOfAll(tl, n, i, x), AltsOfAll(tl, n, i, y))
    ensures |x| == 1 ==> AltsOfAll(tl, n, i, x) == Alts(tl, n, i, x[0])
    decreases |x|
  {
    hide Alts;
    var q := AltsOfAll(tl, n, i, y);
    if x == [] {
      assert x + y == y;
      assert q.Some? ==> [] + q.value == q.value;
    } else {
      assert (x + y)[0] == x[0] && (x + y)[1..] == x[1..] + y;
      AltsInOrder(tl, n, i, x[1..], y);
      var o, p := Alts(tl, n, i, x[0]), AltsOfAll(tl, n, i, x[1..]);
      assert o.Some? && p.Some? && q.Some? ==> o.value + (p.value + q.value) == o.value + p.value + q.value;
      assert o.Some? ==> o.value + [] == o.value;
    }
  }
}

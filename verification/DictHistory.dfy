/** What a finite map with an insertion order answers, told from the operations of the run alone. */
module DictHistory {
  import opened Options
  import opened DictTable
  import opened DictRun

  predicate Puts<V>(op: Op<V>, k: Key) { op.Insert? && op.key == k }

  predicate Drops<V>(op: Op<V>, k: Key) { op.Remove? && op.key == k }

  /** Operation b was the last to insert or remove k, and inserted it. */
  ghost predicate Latest<V>(ops: seq<Op<V>>, k: Key, b: nat) {
    b < |ops| && Puts(ops[b], k) && forall c :: b < c < |ops| ==> !Puts(ops[c], k) && !Drops(ops[c], k)
  }

  /** The key has been there since operation b, which inserted it anew. */
  ghost predicate Born<V>(ops: seq<Op<V>>, k: Key, b: nat) {
    && b < |ops| && Puts(ops[b], k) && (forall c :: b < c < |ops| ==> !Drops(ops[c], k))
    && forall a :: 0 <= a < b && Puts(ops[a], k) ==> exists r :: a < r < b && Drops(ops[r], k)
  }

  ghost function After<V>(ordered: bool, ops: seq<Op<V>>): Model<V> { ModelRun(Model(map[], []), ordered, ops).0 }

  lemma {:induction false} ModelLast<V>(a: Model<V>, ordered: bool, ops: seq<Op<V>>)
    requires ops != []
    ensures var n := |ops| - 1;
            var (a1, rs) := ModelRun(a, ordered, ops[..n]);
            var (a2, r) := ModelStep(a1, ordered, ops[n]);
            ModelRun(a, ordered, ops) == (a2, rs + [r])
    decreases |ops|
  {
    hide ModelStep;
    var n := |ops| - 1;
    var (a1, r) := ModelStep(a, ordered, ops[0]);
    if n == 0 {
      assert ModelRun(a1, ordered, ops[1..]) == (a1, []);
      assert ModelRun(a, ordered, ops[..0]) == (a, []);
      assert [r] + [] == [] + [r];
    } else {
      ModelLast(a1, ordered, ops[1..]);
      assert ops[1..][..n - 1] == ops[..n][1..];
      var rs := ModelRun(a1, ordered, ops[..n][1..]).1;
      var last := ModelStep(ModelRun(a, ordered, ops[..n]).0, ordered, ops[n]).1;
      assert [r] + (rs + [last]) == ([r] + rs) + [last];
    }
  }

  /** The map holds the keys inserted and not removed since, with the values inserted last. */
  ghost predicate Holds<V(!new)>(ops: seq<Op<V>>, m: map<Key, V>) {
    && (forall k, b: nat :: Latest(ops, k, b) ==> k in m && m[k] == ops[b].value)
    && (forall k :: k in m ==> exists b: nat :: Latest(ops, k, b))
  }

  lemma LatestNext<V>(ops: seq<Op<V>>, op: Op<V>, k: Key, b: nat)
    ensures Latest(ops + [op], k, b) <==>
            if Puts(op, k) then b == |ops| else !Drops(op, k) && Latest(ops, k, b)
  {
    var all := ops + [op];
    assert forall c :: 0 <= c < |ops| ==> all[c] == ops[c];
    assert all[|ops|] == op;
    if Puts(op, k) && b < |ops| {
      assert !Latest(all, k, b);
    }
  }

  lemma HoldsNext<V(!new)>(ops: seq<Op<V>>, m: map<Key, V>, op: Op<V>)
    requires Holds(ops, m)
    ensures Holds(ops + [op], match op case Insert(k, v) => m[k := v] case Remove(k) => m - {k} case _ => m)
  {
    hide Latest;
    var all := ops + [op];
    var m' := match op case Insert(k, v) => m[k := v] case Remove(k) => m - {k} case _ => m;
    forall k, b: nat | Latest(all, k, b) ensures b < |all| && all[b].Insert? && k in m' && m'[k] == all[b].value {
      LatestNext(ops, op, k, b);
      LatestIs(all, k, b);
      if Latest(ops, k, b) {
        LatestIs(ops, k, b);
      }
    }
    forall k | k in m' ensures exists b: nat :: Latest(all, k, b) {
      if Puts(op, k) {
        LatestNext(ops, op, k, |ops|);
      } else {
        var b: nat :| Latest(ops, k, b);
        LatestNext(ops, op, k, b);
      }
    }
  }

  lemma LatestIs<V>(ops: seq<Op<V>>, k: Key, b: nat)
    requires Latest(ops, k, b)
    ensures b < |ops| && Puts(ops[b], k)
  {
  }

  lemma {:induction false} RunHolds<V(!new)>(ordered: bool, ops: seq<Op<V>>)
    ensures Holds(ops, After(ordered, ops).m)
    decreases |ops|
  {
    if ops == [] {
      assert After(ordered, ops) == Model(map[], []);
    } else {
      var n := |ops| - 1;
      assert ops == ops[..n] + [ops[n]];
      hide Holds;
      RunHolds(ordered, ops[..n]);
      ModelLast(Model(map[], []), ordered, ops);
      HoldsNext(ops[..n], After(ordered, ops[..n]).m, ops[n]);
    }
  }

  /** The i-th answer: what was inserted last under the key and not removed since. */
  lemma AnswerIs<V(!new)>(ordered: bool, ops: seq<Op<V>>, i: nat, k: Key)
    requires i < |ops| && (Puts(ops[i], k) || Drops(ops[i], k) || (ops[i].Lookup? && ops[i].key == k))
    ensures |ModelRun(Model(map[], []), ordered, ops).1| == |ops|
    ensures var r := ModelRun(Model(map[], []), ordered, ops).1[i];
            && (r.Some? <==> exists b: nat :: Latest(ops[..i], k, b))
            && forall b: nat :: Latest(ops[..i], k, b) ==> r == Some(ops[b].value)
  {
    hide Latest;
    RunHolds(ordered, ops[..i]);
    AnswerAt(ordered, ops, i);
    forall b: nat | Latest(ops[..i], k, b) ensures b < i && ops[b] == ops[..i][b] && ops[b].Insert? {
      LatestIs(ops[..i], k, b);
    }
  }

  lemma {:induction false} AnswerAt<V>(ordered: bool, ops: seq<Op<V>>, i: nat)
    requires i < |ops|
    ensures var rs := ModelRun(Model(map[], []), ordered, ops).1;
            |rs| == |ops| && rs[i] == ModelStep(After(ordered, ops[..i]), ordered, ops[i]).1
    decreases |ops|
  {
    hide ModelStep;
    var n := |ops| - 1;
    ModelLast(Model(map[], []), ordered, ops);
    if n == 0 {
      assert ops[..n] == [];
    } else if i < n {
      AnswerAt(ordered, ops[..n], i);
      assert ops[..n][..i] == ops[..i];
    } else {
      AnswerAt(ordered, ops[..n], 0);
    }
  }

  // ---------------------------------------------------------------- order

  /** Keys listed by the operations that brought them in. */
  ghost predicate ByAge<V>(ops: seq<Op<V>>, order: seq<Key>, births: seq<nat>)
    ensures ByAge(ops, order, births) ==> |births| == |order|
  {
    && |births| == |order| && (forall i :: 0 <= i < |order| ==> Born(ops, order[i], births[i]))
    && forall i, j :: 0 <= i < j < |order| ==> births[i] < births[j]
  }

  lemma BornStays<V>(ops: seq<Op<V>>, op: Op<V>, k: Key, b: nat)
    requires Born(ops, k, b) && !Drops(op, k)
    ensures Born(ops + [op], k, b)
  {
    var all := ops + [op];
    assert forall c :: 0 <= c < |ops| ==> all[c] == ops[c];
    forall a | 0 <= a < b && Puts(all[a], k) ensures exists r :: a < r < b && Drops(all[r], k) {
      assert Puts(ops[a], k);
      var r :| a < r < b && Drops(ops[r], k);
      assert Drops(all[r], k);
    }
  }

  /** A key inserted and not removed since is there. */
  lemma {:induction false} StillThere<V(!new)>(ops: seq<Op<V>>, m: map<Key, V>, k: Key, a: nat)
    requires Holds(ops, m) && a < |ops| && Puts(ops[a], k) && forall c :: a < c < |ops| ==> !Drops(ops[c], k)
    ensures k in m
    decreases |ops| - a
  {
    if exists c :: a < c < |ops| && Puts(ops[c], k) {
      var c :| a < c < |ops| && Puts(ops[c], k);
      StillThere(ops, m, k, c);
    } else {
      assert Latest(ops, k, a);
    }
  }

  lemma BornNow<V(!new)>(ops: seq<Op<V>>, m: map<Key, V>, op: Op<V>, k: Key)
    requires Holds(ops, m) && k !in m && Puts(op, k)
    ensures Born(ops + [op], k, |ops|)
  {
    var all := ops + [op];
    assert forall c :: 0 <= c < |ops| ==> all[c] == ops[c];
    forall a | 0 <= a < |ops| && Puts(all[a], k) ensures exists r :: a < r < |ops| && Drops(all[r], k) {
      if forall c :: a < c < |ops| ==> !Drops(ops[c], k) {
        StillThere(ops, m, k, a);
      }
      var r :| a < r < |ops| && Drops(ops[r], k);
      assert Drops(all[r], k);
    }
  }

  lemma AgesStay<V>(ops: seq<Op<V>>, op: Op<V>, order: seq<Key>, births: seq<nat>)
    requires ByAge(ops, order, births) && !op.Remove?
    ensures ByAge(ops + [op], order, births)
  {
    hide Born;
    forall i | 0 <= i < |order| ensures Born(ops + [op], order[i], births[i]) {
      BornStays(ops, op, order[i], births[i]);
    }
  }

  lemma AgesBelow<V>(ops: seq<Op<V>>, order: seq<Key>, births: seq<nat>)
    requires ByAge(ops, order, births)
    ensures forall i :: 0 <= i < |order| ==> births[i] < |ops|
  {
    forall i | 0 <= i < |order| ensures births[i] < |ops| {
      assert Born(ops, order[i], births[i]);
    }
  }

  lemma AgesCut<V>(ops: seq<Op<V>>, order: seq<Key>, births: seq<nat>, i: nat)
    requires ByAge(ops, order, births) && i < |order|
    ensures ByAge(ops, order[..i] + order[i + 1..], births[..i] + births[i + 1..])
  {
    hide Born;
    var rest, ages := order[..i] + order[i + 1..], births[..i] + births[i + 1..];
    forall j | 0 <= j < |rest| ensures Born(ops, rest[j], ages[j]) {
      var k := if j < i then j else j + 1;
      assert rest[j] == order[k] && ages[j] == births[k];
    }
    forall j, k | 0 <= j < k < |rest| ensures ages[j] < ages[k] {
      assert ages[j] == births[if j < i then j else j + 1] && ages[k] == births[if k < i then k else k + 1];
    }
  }

  lemma AgesAbsent<V>(ops: seq<Op<V>>, op: Op<V>, order: seq<Key>, births: seq<nat>, k: Key)
    requires ByAge(ops, order, births) && op == Remove(k) && k !in order
    ensures ByAge(ops + [op], order, births)
  {
    hide Born;
    forall i | 0 <= i < |order| ensures Born(ops + [op], order[i], births[i]) {
      BornStays(ops, op, order[i], births[i]);
    }
  }

  lemma AgesWithout<V>(ops: seq<Op<V>>, op: Op<V>, order: seq<Key>, births: seq<nat>, k: Key) returns (r: seq<nat>)
    requires ByAge(ops, order, births) && op == Remove(k) && Seqs.Distinct(order)
    ensures ByAge(ops + [op], Erased(order, k), r)
  {
    hide ByAge, Erased;
    ErasedKeys(order, k, k);
    if k in order {
      var i :| 0 <= i < |order| && order[i] == k;
      ErasedAt(order, k, i);
      AgesCut(ops, order, births, i);
      r := births[..i] + births[i + 1..];
    } else {
      ErasedAbsent(order, k);
      r := births;
    }
    AgesAbsent(ops, op, Erased(order, k), r, k);
  }

  lemma OrderNext<V(!new)>(ops: seq<Op<V>>, a: Model<V>, op: Op<V>, births: seq<nat>) returns (r: seq<nat>)
    requires Holds(ops, a.m) && ByAge(ops, a.order, births) && Lists(a.order, a.m.Keys)
    ensures var a' := ModelStep(a, true, op).0; ByAge(ops + [op], a'.order, r) && Lists(a'.order, a'.m.Keys)
  {
    hide Holds, Born, Erased;
    match op {
      case Insert(k, v) =>
        AgesStay(ops, op, a.order, births);
        r := births;
        if k !in a.m {
          BornNow(ops, a.m, op, k);
          AgesBelow(ops, a.order, births);
          CountedPlus(|a.m|, true, a.order, a.m, k, v);
          r := births + [|ops|];
        } else {
          CountedSame(|a.m|, true, a.order, a.m, k, v);
        }
      case Remove(k) =>
        CountedMinus(|a.m|, true, a.order, a.m, k);
        r := AgesWithout(ops, op, a.order, births, k);
      case _ =>
        AgesStay(ops, op, a.order, births);
        r := births;
    }
  }

  /** The keys of an ordered dictionary are listed in the order in which they were inserted, those inserted
      again after a removal by the later time, and overwritten ones where they were. */
  lemma {:induction false} OrderIsByAge<V(!new)>(ops: seq<Op<V>>) returns (births: seq<nat>)
    ensures var a := After(true, ops); ByAge(ops, a.order, births) && Lists(a.order, a.m.Keys)
    decreases |ops|
  {
    if ops == [] {
      births := [];
      assert After(true, ops) == Model(map[], []);
    } else {
      hide Holds, ByAge, ModelStep, Lists;
      var n := |ops| - 1;
      assert ops == ops[..n] + [ops[n]];
      births := OrderIsByAge(ops[..n]);
      ModelLast(Model(map[], []), true, ops);
      RunHolds(true, ops[..n]);
      births := OrderNext(ops[..n], After(true, ops[..n]), ops[n], births);
    }
  }
}

/** The order in which table entries are written, and the form a value takes when it is: equal values,
    however their tables were filled, take the same form. */
module CompOrder {
  import opened Octet
  import opened HashBytes
  import opened CompVals

  // ---------------------------------------------------------------- the order of hash keys

  predicate LexLess(a: seq<Byte>, b: seq<Byte>) {
    if a == [] || b == [] then false else if a[0] != b[0] then a[0] < b[0] else LexLess(a[1..], b[1..])
  }

  /** Keys compare by hash, then by size, then byte by byte. */
  predicate Before(hash: seq<Byte> -> nat, a: seq<Byte>, b: seq<Byte>) {
    if hash(a) != hash(b) then hash(a) < hash(b) else if |a| != |b| then |a| < |b| else LexLess(a, b)
  }

  lemma {:induction false} LexTotal(a: seq<Byte>, b: seq<Byte>)
    requires |a| == |b|
    ensures LexLess(a, b) || LexLess(b, a) || a == b
    ensures !(LexLess(a, b) && LexLess(b, a))
    ensures a == b ==> !LexLess(a, b)
  {
    if a != [] {
      LexTotal(a[1..], b[1..]);
      assert a == [a[0]] + a[1..] && b == [b[0]] + b[1..];
    }
  }

  lemma {:induction false} LexTransitive(a: seq<Byte>, b: seq<Byte>, c: seq<Byte>)
    requires |a| == |b| == |c| && LexLess(a, b) && LexLess(b, c)
    ensures LexLess(a, c)
  {
    if a[0] == b[0] && b[0] == c[0] {
      LexTransitive(a[1..], b[1..], c[1..]);
    }
  }

  /** The first byte in which two keys differ is the smaller one in a. */
  ghost predicate DiffersAt(a: seq<Byte>, b: seq<Byte>, k: nat) {
    k < |a| && k < |b| && a[..k] == b[..k] && a[k] < b[k]
  }

  lemma {:induction false} LexIs(a: seq<Byte>, b: seq<Byte>)
    ensures LexLess(a, b) <==> exists k: nat :: DiffersAt(a, b, k)
  {
    if a != [] && b != [] {
      if a[0] == b[0] {
        LexIs(a[1..], b[1..]);
        forall k: nat ensures DiffersAt(a, b, k + 1) <==> DiffersAt(a[1..], b[1..], k) {
          if k < |a[1..]| && k < |b[1..]| {
            assert a[..k + 1] == [a[0]] + a[1..][..k] && b[..k + 1] == [b[0]] + b[1..][..k];
            assert a[..k + 1][1..] == a[1..][..k] && b[..k + 1][1..] == b[1..][..k];
          }
        }
        if exists k: nat :: DiffersAt(a, b, k) {
          var k: nat :| DiffersAt(a, b, k);
          assert k > 0 && DiffersAt(a[1..], b[1..], k - 1);
        }
        if exists k: nat :: DiffersAt(a[1..], b[1..], k) {
          var k: nat :| DiffersAt(a[1..], b[1..], k);
          assert DiffersAt(a, b, k + 1);
        }
      } else {
        assert DiffersAt(a, b, 0) <==> a[0] < b[0];
        forall k: nat | k > 0 && k < |a| && k < |b| ensures !DiffersAt(a, b, k) {
          assert a[..k][0] == a[0] && b[..k][0] == b[0];
        }
      }
    }
  }

  /** A key of smaller hash comes first; of equal hashes, the shorter one; of equal lengths, the one that is
      smaller where they first differ. */
  lemma BeforeIs(hash: seq<Byte> -> nat, a: seq<Byte>, b: seq<Byte>)
    ensures Before(hash, a, b) <==>
            || hash(a) < hash(b)
            || (hash(a) == hash(b) && |a| < |b|)
            || (hash(a) == hash(b) && |a| == |b| && exists k: nat :: DiffersAt(a, b, k))
  {
    hide LexLess, DiffersAt;
    LexIs(a, b);
  }

  /** Before is a strict total order, whatever the hash function. */
  lemma BeforeTotal(hash: seq<Byte> -> nat, a: seq<Byte>, b: seq<Byte>)
    ensures Before(hash, a, b) || Before(hash, b, a) || a == b
    ensures !(Before(hash, a, b) && Before(hash, b, a)) && !Before(hash, a, a)
  {
    LexTotal(a, a);
    if |a| == |b| {
      LexTotal(a, b);
    }
  }

  lemma BeforeTransitive(hash: seq<Byte> -> nat, a: seq<Byte>, b: seq<Byte>, c: seq<Byte>)
    requires Before(hash, a, b) && Before(hash, b, c)
    ensures Before(hash, a, c)
  {
    if |a| == |b| == |c| && LexLess(a, b) && LexLess(b, c) {
      LexTransitive(a, b, c);
    }
  }

  // ---------------------------------------------------------------- the keys of a table's entries

  /** What the order depends on: the hash function, the function tables of nested tables' own keys,
      and the bytes left in a key that is longer than what was written to it. */
  datatype World = World(hash: seq<Byte> -> nat, inner: seq<Type> -> seq<nat>, tail: (seq<Type>, seq<Val>) -> seq<Byte>)

  /** The bytes written for a list of values; a single string stands for itself. */
  function KeyBytes(funcs: seq<nat>, types: seq<Type>, vs: seq<Val>): seq<Byte>
    requires ListHas(types, vs)
  {
    if |types| == 1 && types[0].TString? then
      assert HasType(types[0], vs[0]);
      vs[0].text
    else Written([], ListOps(funcs, types, vs))
  }

  /** How many reserved bytes are not written. */
  function Slack(funcs: seq<nat>, types: seq<Type>, vs: seq<Val>): int
    requires ListHas(types, vs)
  {
    if |types| == 1 && types[0].TString? then 0
    else Reserved(0, ListOps(funcs, types, vs)) - |Written([], ListOps(funcs, types, vs))|
  }

  /** What is reserved for the key of a list of values. */
  function Room(types: seq<Type>, vs: seq<Val>): nat
    requires ListHas(types, vs)
  {
    if |types| == 1 && types[0].TString? then
      assert HasType(types[0], vs[0]);
      |vs[0].text|
    else Reserved(0, ListOps([], types, vs))
  }

  function StoredKey(w: World, types: seq<Type>, vs: seq<Val>): seq<Byte>
    requires ListHas(types, vs)
  {
    KeyBytes(w.inner(types), types, vs) + if Slack(w.inner(types), types, vs) == 0 then [] else w.tail(types, vs)
  }

  predicate EntryBefore(w: World, types: seq<Type>, d: Entry, e: Entry)
    requires ListHas(types, d.index) && ListHas(types, e.index)
  {
    Before(w.hash, StoredKey(w, types, d.index), StoredKey(w, types, e.index))
  }

  ghost predicate Indexed(types: seq<Type>, es: seq<Entry>) {
    forall i :: 0 <= i < |es| ==> ListHas(types, es[i].index)
  }

  /** Place an entry among sorted ones. */
  function Placed(w: World, types: seq<Type>, es: seq<Entry>, e: Entry): (r: seq<Entry>)
    requires Indexed(types, es) && ListHas(types, e.index)
    ensures |r| == |es| + 1 && (forall x :: x in r <==> x in es || x == e)
    ensures Indexed(types, r)
  {
    if es == [] then [e]
    else
      var n := |es| - 1;
      assert es == es[..n] + [es[n]];
      if EntryBefore(w, types, es[n], e) then es + [e] else Placed(w, types, es[..n], e) + [es[n]]
  }

  function Sorted(w: World, types: seq<Type>, es: seq<Entry>): (r: seq<Entry>)
    requires Indexed(types, es)
    ensures |r| == |es| && (forall x :: x in r <==> x in es)
    ensures Indexed(types, r)
  {
    if es == [] then []
    else
      var n := |es| - 1;
      assert es == es[..n] + [es[n]];
      Placed(w, types, Sorted(w, types, es[..n]), es[n])
  }

  ghost predicate Ordered(w: World, types: seq<Type>, es: seq<Entry>)
    requires Indexed(types, es)
  {
    forall i, j :: 0 <= i < j < |es| ==> EntryBefore(w, types, es[i], es[j])
  }

  /** No two entries of a table have the same key. */
  ghost predicate KeysDiffer(w: World, types: seq<Type>, es: seq<Entry>)
    requires Indexed(types, es)
  {
    forall i, j :: 0 <= i < j < |es| ==> StoredKey(w, types, es[i].index) != StoredKey(w, types, es[j].index)
  }

  lemma {:induction false} PlacedOrdered(w: World, types: seq<Type>, es: seq<Entry>, e: Entry)
    requires Indexed(types, es) && ListHas(types, e.index) && Ordered(w, types, es)
    requires forall i :: 0 <= i < |es| ==> StoredKey(w, types, es[i].index) != StoredKey(w, types, e.index)
    ensures Ordered(w, types, Placed(w, types, es, e))
  {
    hide StoredKey, Before, ListHas;
    if es != [] {
      var n := |es| - 1;
      var last := es[n];
      if EntryBefore(w, types, last, e) {
        forall i | 0 <= i < |es| ensures EntryBefore(w, types, es[i], e) {
          if i < n {
            BeforeTransitive(w.hash, StoredKey(w, types, es[i].index), StoredKey(w, types, last.index),
                StoredKey(w, types, e.index));
          }
        }
      } else {
        BeforeTotal(w.hash, StoredKey(w, types, last.index), StoredKey(w, types, e.index));
        PlacedOrdered(w, types, es[..n], e);
        var r := Placed(w, types, es[..n], e);
        forall i | 0 <= i < |r| ensures EntryBefore(w, types, r[i], last) {
          assert r[i] in r;
        }
      }
    }
  }

  lemma {:induction false} SortedOrdered(w: World, types: seq<Type>, es: seq<Entry>)
    requires Indexed(types, es) && KeysDiffer(w, types, es)
    ensures Ordered(w, types, Sorted(w, types, es))
  {
    hide StoredKey, ListHas, EntryBefore;
    if es != [] {
      var n := |es| - 1;
      SortedOrdered(w, types, es[..n]);
      var r := Sorted(w, types, es[..n]);
      forall i | 0 <= i < |r| ensures StoredKey(w, types, r[i].index) != StoredKey(w, types, es[n].index) {
        assert r[i] in r;
        var k :| 0 <= k < |es[..n]| && es[..n][k] == r[i];
      }
      PlacedOrdered(w, types, r, es[n]);
    }
  }

  lemma EntryIrreflexive(w: World, types: seq<Type>, e: Entry)
    requires ListHas(types, e.index)
    ensures !EntryBefore(w, types, e, e)
  {
    BeforeTotal(w.hash, StoredKey(w, types, e.index), StoredKey(w, types, e.index));
  }

  lemma EntryAsymmetric(w: World, types: seq<Type>, d: Entry, e: Entry)
    requires ListHas(types, d.index) && ListHas(types, e.index) && EntryBefore(w, types, d, e)
    ensures !EntryBefore(w, types, e, d)
  {
    BeforeTotal(w.hash, StoredKey(w, types, d.index), StoredKey(w, types, e.index));
  }

  /** An entry of a list that is inside another stands no earlier there. */
  lemma {:induction false} StandsAt(w: World, types: seq<Type>, a: seq<Entry>, b: seq<Entry>, i: nat) returns (p: nat)
    requires Indexed(types, a) && Indexed(types, b) && Ordered(w, types, a) && Ordered(w, types, b)
    requires i < |a| && forall x :: x in a ==> x in b
    ensures i <= p < |b| && b[p] == a[i]
  {
    hide EntryBefore, ListHas;
    assert a[i] in a;
    p :| 0 <= p < |b| && b[p] == a[i];
    if i > 0 {
      var q := StandsAt(w, types, a, b, i - 1);
      assert EntryBefore(w, types, b[q], b[p]);
      EntryAsymmetric(w, types, b[q], b[p]);
      EntryIrreflexive(w, types, b[p]);
    }
  }

  /** Two ordered lists of the same length, one inside the other, are equal. */
  lemma {:induction false} OrderedUnique(w: World, types: seq<Type>, a: seq<Entry>, b: seq<Entry>)
    requires Indexed(types, a) && Indexed(types, b) && Ordered(w, types, a) && Ordered(w, types, b)
    requires |a| == |b| && forall x :: x in a ==> x in b
    ensures a == b
  {
    hide EntryBefore, ListHas;
    if a != [] {
      var n := |a| - 1;
      var p := StandsAt(w, types, a, b, n);
      assert a[n] == b[n];
      forall x | x in a[..n] ensures x in b[..n] {
        var i :| 0 <= i < n && a[..n][i] == x;
        assert EntryBefore(w, types, a[i], a[n]);
        EntryIrreflexive(w, types, a[n]);
        assert a[i] in a && b == b[..n] + [b[n]];
      }
      OrderedUnique(w, types, a[..n], b[..n]);
      assert a == a[..n] + [a[n]] && b == b[..n] + [b[n]];
    }
  }
}

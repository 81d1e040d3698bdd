/** When a pass finds every yield, and when a key depends on nothing but the values it is made from. */
module CompMade {
  import opened Octet
  import opened HashBytes
  import opened CompVals
  import opened CompOrder
  import opened CompKeys
  import opened CompGap
  import opened CompCanon
  import opened CompWhole
  import opened CompLoose
  import opened CompAgain
  import opened CompPass
  import opened CompFound

  // ---------------------------------------------------------------- keys that can be made

  /** A pass in a run with these function tables. */
  ghost predicate Runs(inner: seq<Type> -> seq<nat>, g: Pass) {
    Lined(g) && forall d: nat :: g(d).inner == inner && Fair(g(d))
  }

  /** A key is made in two passes, `r` to reserve and `g` to write: both find every yield, and what is
      written fits. */
  ghost predicate Makes(r: Pass, g: Pass, types: seq<Type>, vs: seq<Val>)
    requires ListHas(types, vs)
  {
    && GetsList(r, 0, types, vs) && GetsList(g, 0, types, vs)
    && |KeyBytes(g(0).inner(types), types, FormList(g, 0, types, vs))| <= Room(types, FormList(r, 0, types, vs))
  }

  ghost function WholeKey(g: Pass, types: seq<Type>, vs: seq<Val>): seq<Byte>
    requires ListHas(types, vs)
  {
    StoredKey(g(0), types, FormList(g, 0, types, vs))
  }

  lemma UsableIs(w: World, types: seq<Type>, vs: seq<Val>)
    requires ListHas(types, vs) && Usable(w, types, vs)
    ensures AllList(Keys(w), types, vs)
    ensures FixedKey(w, types, vs) ==> AllList(Fixes(w), types, vs)
    ensures FirmKey(w, types, vs) <==> Gap(types, CanonList(w, types, vs)) == 0 && AllList(Firms(w), types, vs)
    ensures FirmKey(w, types, vs) ==> FixedKey(w, types, vs)
  {
    hide OccursList, ListHas, Keyed, Gap, CanonList, CoversList, FirmEntry;
    assert forall x :: OccursList(x, types, vs) ==>
           (Keys(w)(x) <==> Keyed(w, x)) && (Fixes(w)(x) <==> Fixed(w, x)) && (Firms(w)(x) <==> Firm(w, x));
    assert forall x :: Firm(w, x) ==> Fixed(w, x);
  }

  lemma FirmYields(w: World, types: seq<Type>, vs: seq<Val>)
    requires ListHas(types, vs) && AllList(Firms(w), types, vs)
    ensures AllList(YieldsFixed(w), types, vs)
  {
    hide OccursList, ListHas, FirmEntry, AllList, Deeper, YieldFixed;
    AllListIs(Firms(w), types, vs);
    AllListIs(Fixes(w), types, vs);
    AllListIs(YieldFirms(w), types, vs);
    forall x | OccursList(x, types, vs) ensures Fixes(w)(x) && YieldFirms(w)(x) {
      assert Firms(w)(x);
    }
    DeepensList(Fixes(w), types, vs);
    FirmYieldsFixed(w, types, vs);
  }

  /** Firm keys can be made by any passes of a run, and in the same form. */
  lemma FirmMakes(r: Pass, g: Pass, types: seq<Type>, vs: seq<Val>)
    requires ListHas(types, vs) && Lined(r) && Lined(g) && r(0) == g(0) && Usable(g(0), types, vs) &&
             FirmKey(g(0), types, vs)
    ensures Makes(r, g, types, vs)
    ensures FormList(g, 0, types, vs) == FormList(r, 0, types, vs) == CanonList(g(0), types, vs)
  {
    hide AllList, ListHas, CanonList, FormList, GetsList, KeyBytes, Room, Slack, Usable, FixedKey, FirmKey, Gap, Keys;
    hide Fixes, Firms, Sure, YieldsFixed;
    var w := g(0);
    UsableIs(w, types, vs);
    SureIs(g, 0, types, vs);
    SureIs(r, 0, types, vs);
    FormIsCanonList(g, 0, types, vs);
    FormIsCanonList(r, 0, types, vs);
    FirmYields(w, types, vs);
    FindsList(g, 0, types, vs);
    FindsList(r, 0, types, vs);
    RoomSuffices(w.inner(types), types, CanonList(w, types, vs));
  }

  /** What is written always fits what is reserved, unless unwritten bytes decide the order of a table inside
      the index of a table. */
  lemma SettledFits(r: Pass, g: Pass, types: seq<Type>, vs: seq<Val>)
    requires ListHas(types, vs) && Lined(r) && Lined(g) && r(0) == g(0) && AllList(Settles(g(0)), types, vs)
    ensures FormList(r, 0, types, vs) == FormList(g, 0, types, vs)
    ensures Makes(r, g, types, vs) <==> GetsList(r, 0, types, vs) && GetsList(g, 0, types, vs)
  {
    hide AllList, ListHas, FormList, GetsList, KeyBytes, Room, Slack, Settles;
    FormsAgreeList(r, g, 0, types, vs);
    RoomSuffices(g(0).inner(types), types, FormList(g, 0, types, vs));
  }

  /** Values equal to those of a firm key have a firm key. */
  lemma FirmAlike(w: World, w': World, types: seq<Type>, a: seq<Val>, b: seq<Val>)
    requires ListHas(types, a) && ListHas(types, b) && AlikeList(a, b) && SameRun(w, w')
    requires Usable(w, types, a) && Usable(w', types, b) && FirmKey(w, types, a)
    ensures FirmKey(w', types, b) && CanonList(w, types, a) == CanonList(w', types, b)
  {
    hide ListHas, AlikeList, OccursList, Keyed, Fixed, CanonList, Gap, CoversList, Turns, AllList, Firms;
    UsableIs(w, types, a);
    UsableIs(w', types, b);
    AlikeCanonList(w, w', types, a, b);
    TurnFirm(w);
    TurnFirm(w');
    AllCanonList(w, Firms(w), Tights(), types, a);
    AllCanonList(w', Firms(w'), Tights(), types, b);
  }

  // ---------------------------------------------------------------- exactly when a key is determined

  /** Two keys made in runs with these function tables and one hash function, of equal values. */
  ghost predicate Comparable(inner: seq<Type> -> seq<nat>, r: Pass, g: Pass, r': Pass, g': Pass, types: seq<Type>,
      a: seq<Val>, b: seq<Val>)
  {
    && Runs(inner, r) && Runs(inner, g) && Runs(inner, r') && Runs(inner, g')
    && r(0) == g(0) && r'(0) == g'(0) && SameRun(g(0), g'(0))
    && ListHas(types, a) && ListHas(types, b) && AlikeList(a, b) && Usable(g'(0), types, b)
  }

  /** In all runs with these function tables, whatever the hash function and whatever is left in unwritten
      bytes, keys can be made of values equal to `a`, and whole keys of one hash function are the same. */
  ghost predicate Determined(inner: seq<Type> -> seq<nat>, types: seq<Type>, a: seq<Val>)
    requires ListHas(types, a)
  {
    forall r: Pass, g: Pass, r', g', b ::
      Comparable(inner, r, g, r', g', types, a, b) ==>
        Makes(r, g, types, a) && Makes(r', g', types, b) && WholeKey(g, types, a) == WholeKey(g', types, b)
  }

  /** No unwritten bytes in the key, nor in the indices of an inner table that has two or more entries, or
      any entries and a yield. */
  ghost predicate AlwaysFirm(inner: seq<Type> -> seq<nat>, types: seq<Type>, a: seq<Val>)
    requires ListHas(types, a)
  {
    forall w: World :: w.inner == inner && Fair(w) ==> FirmKey(w, types, a)
  }

  /** Keys can always be made, and are a function of the value, exactly when no unwritten bytes are in the
      key, decide an order inside it, or are in a key by which a yield is looked up. */
  lemma KeysDetermined(run: World, types: seq<Type>, a: seq<Val>)
    requires ListHas(types, a) && Usable(run, types, a)
    ensures Determined(run.inner, types, a) <==> AlwaysFirm(run.inner, types, a)
  {
    hide AlikeList, ListHas, Usable, FirmKey, Fair, WholeKey, Makes, Runs;
    if AlwaysFirm(run.inner, types, a) {
      forall r: Pass, g: Pass, r', g', b | Comparable(run.inner, r, g, r', g', types, a, b)
        ensures Makes(r, g, types, a) && Makes(r', g', types, b) && WholeKey(g, types, a) == WholeKey(g', types, b)
      {
        FirmDetermines(run, r, g, r', g', types, a, b);
      }
    }
    if Determined(run.inner, types, a) {
      forall w: World | w.inner == run.inner && Fair(w) ensures FirmKey(w, types, a) {
        UsableToo(run, w, types, a);
        if !FirmKey(w, types, a) {
          var g, g' := LoosePasses(w, types, a);
        }
      }
    }
  }

  /** Without vectors in the index types that is always so. */
  lemma PlainDetermined(run: World, types: seq<Type>, a: seq<Val>)
    requires ListHas(types, a) && Usable(run, types, a) && NoVectorsIn(types)
    ensures Determined(run.inner, types, a)
  {
    hide ListHas, Usable, FirmKey, FixedKey, Fair, Determined, NoVectorsIn;
    forall w: World | w.inner == run.inner && Fair(w) ensures FirmKey(w, types, a) {
      PlainKey(w, types, a);
    }
    KeysDetermined(run, types, a);
  }

  lemma FirmDetermines(run: World, r: Pass, g: Pass, r': Pass, g': Pass, types: seq<Type>, a: seq<Val>, b: seq<Val>)
    requires ListHas(types, a) && Usable(run, types, a) && AlwaysFirm(run.inner, types, a)
    requires Comparable(run.inner, r, g, r', g', types, a, b)
    ensures Makes(r, g, types, a) && Makes(r', g', types, b) && WholeKey(g, types, a) == WholeKey(g', types, b)
  {
    hide AlikeList, ListHas, Usable, FirmKey, Fair, Makes, StoredKey, FormList, CanonList, Slack, Gap;
    UsableToo(run, g(0), types, a);
    FirmAlike(g(0), g'(0), types, a, b);
    FirmMakes(r, g, types, a);
    FirmMakes(r', g', types, b);
    FirmSlack(g(0), types, a);
    TightKey(g(0), g'(0), types, CanonList(g(0), types, a));
  }

  lemma FirmSlack(w: World, types: seq<Type>, vs: seq<Val>)
    requires ListHas(types, vs) && FirmKey(w, types, vs)
    ensures Slack(w.inner(types), types, CanonList(w, types, vs)) == 0
  {
    hide Slack, Gap, ListHas, CanonList;
    SlackIsGap(w.inner(types), types, CanonList(w, types, vs));
  }

  // ---------------------------------------------------------------- passes of keys that are not firm

  ghost function Same(w: World): Pass { _ => w }

  /** Other bytes in every key that has some unwritten. */
  ghost function Flipped(w: World): World
    requires Fair(w)
  {
    hide Gap, ListHas;
    World(w.hash, w.inner, (types, vs) =>
      if ListHas(types, vs) && w.tail(types, vs) != [] then Other(w.tail(types, vs)) else w.tail(types, vs))
  }

  lemma FlippedFair(w: World)
    requires Fair(w)
    ensures SameRun(w, Flipped(w)) && Fair(Flipped(w))
  {
    hide Gap, ListHas;
  }

  lemma FlippedKey(w: World, types: seq<Type>, vs: seq<Val>)
    requires ListHas(types, vs) && Fair(w) && Gap(types, vs) > 0
    ensures StoredKey(w, types, vs) != StoredKey(Flipped(w), types, vs)
  {
    hide Gap, ListHas, StoredKey, KeyBytes;
    var w', k := Flipped(w), KeyBytes(w.inner(types), types, vs);
    assert |w.tail(types, vs)| == Gap(types, vs);
    StoredIs(w, types, vs);
    StoredIs(w', types, vs);
    assert (k + w.tail(types, vs))[|k|..] == w.tail(types, vs);
    assert (k + w'.tail(types, vs))[|k|..] == w'.tail(types, vs);
  }

  /** A yield stored under a key with unwritten bytes is looked up by another, if those are different. */
  lemma LooseYield(w: World, x: Tab)
    requires Keyed(w, x) && Fair(w) && !YieldFirm(w, x)
    ensures !Meets(w, Flipped(w))(x)
  {
    hide Gap, CanonList, ListHas, HasType, StoredKey, CoversList, AlikeList, Meets;
    var i :| 0 <= i < |x.entries| && !FirmEntry(w, x.index, x.result, x.entries[i]);
    var w', index, vs := Flipped(w), x.index, x.entries[i].index;
    assert EntryHas(index, x.result, x.entries[i]);
    var c := CanonList(w, index, vs);
    MeetsIs(w, w', x);
    FlippedFair(w);
    if SameKey(w, w', index, c) {
      CanonCoveredList(w, w.inner(index), index, vs);
      KeysTell(w, w', index, vs, c);
      FlippedKey(w, index, c);
    }
  }

  /** So some pass misses a yield of a table with unwritten bytes in its keys. */
  lemma MissesYield(w: World, types: seq<Type>, a: seq<Val>) returns (g: Pass)
    requires ListHas(types, a) && Usable(w, types, a) && Fair(w) && !AllList(YieldFirms(w), types, a)
    ensures Runs(w.inner, g) && g(0) == w && !GetsList(g, 0, types, a)
  {
    hide AllList, ListHas, OccursList, Keyed, YieldFirm, Meets, GetsList, CoversList, Fair;
    UsableIs(w, types, a);
    FlippedFair(w);
    AllListIs(YieldFirms(w), types, a);
    AllListIs(Meets(w, Flipped(w)), types, a);
    var x :| OccursList(x, types, a) && !YieldFirms(w)(x);
    LooseYield(w, x);
    var k := MissesList(w, Flipped(w), 0, types, a);
    g := Turning(w, Flipped(w), k);
    TurningLined(w, Flipped(w), k);
  }

  lemma SameIs(w: World)
    requires Fair(w)
    ensures Runs(w.inner, Same(w)) && Still(Same(w), 0) && Same(w)(0) == w
  {
  }

  /** With the same unwritten bytes everywhere, what is written is the canonical form. */
  lemma SameForms(w: World, types: seq<Type>, vs: seq<Val>)
    requires ListHas(types, vs) && Fair(w) && Usable(w, types, vs)
    ensures WholeKey(Same(w), types, vs) == StoredKey(w, types, CanonList(w, types, vs))
  {
    hide ListHas, AllList, Usable, FormList, CanonList, StoredKey, Keys, Fixes, Firms, Fair;
    SameIs(w);
    UsableIs(w, types, vs);
    SureIs(Same(w), 0, types, vs);
    FormIsCanonList(Same(w), 0, types, vs);
  }

  /** A key that is not firm cannot be made by some pass, or comes out in two ways. */
  lemma LoosePasses(w: World, types: seq<Type>, a: seq<Val>) returns (g: Pass, g': Pass)
    requires ListHas(types, a) && Usable(w, types, a) && Fair(w) && !FirmKey(w, types, a)
    ensures Comparable(w.inner, g, g, g', g', types, a, a)
    ensures !Makes(g, g, types, a) || WholeKey(g, types, a) != WholeKey(g', types, a)
  {
    hide AlikeList, ListHas, Usable, FirmKey, FixedKey, Fair, StoredKey, CanonList, GetsList, AllList, Gap;
    hide Lined, WholeKey;
    hide Keys, Fixes, Firms, FormList;
    UsableIs(w, types, a);
    if FixedKey(w, types, a) {
      NotYieldFirm(w, types, a);
      g := MissesYield(w, types, a);
      g' := g;
      CanonAlikeList(w, w, types, a, a);
    } else {
      var w1, w2 := LooseKey(w, types, a);
      g, g' := Same(w1), Same(w2);
      UsableToo(w, w1, types, a);
      UsableToo(w, w2, types, a);
      SameIs(w1);
      SameIs(w2);
      SameForms(w1, types, a);
      SameForms(w2, types, a);
    }
  }

  lemma NotYieldFirm(w: World, types: seq<Type>, vs: seq<Val>)
    requires ListHas(types, vs) && FixedKey(w, types, vs) && !FirmKey(w, types, vs)
    ensures !AllList(YieldFirms(w), types, vs)
  {
    hide Gap, CanonList, ListHas, OccursList, FirmEntry, AllList;
    AllListIs(YieldFirms(w), types, vs);
    var x :| OccursList(x, types, vs) && !Firm(w, x);
    assert Fixed(w, x) && !YieldFirms(w)(x);
  }

  // ---------------------------------------------------------------- exactly when a key can be made

  /** Unless unwritten bytes decide the order of a table inside the index of a table, a key can be made in
      all runs exactly when no stored key of a table with a yield has unwritten bytes. */
  lemma MadeExactly(w: World, types: seq<Type>, a: seq<Val>)
    requires ListHas(types, a) && Usable(w, types, a) && Fair(w) && AllList(Settles(w), types, a)
    ensures (forall r: Pass, g: Pass :: Runs(w.inner, r) && Runs(w.inner, g) && r(0) == w && g(0) == w ==>
               Makes(r, g, types, a))
            <==> AllList(YieldFirms(w), types, a)
  {
    hide AllList, ListHas, Usable, Fair, GetsList, YieldFirms, Settles, Lined;
    if AllList(YieldFirms(w), types, a) {
      forall r: Pass, g: Pass | Runs(w.inner, r) && Runs(w.inner, g) && r(0) == w && g(0) == w
        ensures Makes(r, g, types, a)
      {
        SettledMakes(r, g, types, a);
      }
    } else {
      var g := MissesYield(w, types, a);
      assert !Makes(g, g, types, a);
    }
  }

  lemma SettledMakes(r: Pass, g: Pass, types: seq<Type>, vs: seq<Val>)
    requires ListHas(types, vs) && Lined(r) && Lined(g) && r(0) == g(0) && Usable(g(0), types, vs)
    requires AllList(Settles(g(0)), types, vs) && AllList(YieldFirms(g(0)), types, vs)
    ensures Makes(r, g, types, vs)
  {
    hide AllList, ListHas, Usable, Makes, GetsList, Keys, Fixes, YieldFirms, YieldsFixed, Settles, Deeper, Lined;
    UsableIs(g(0), types, vs);
    SettledInward(g(0), types, vs);
    FirmYieldsFixed(g(0), types, vs);
    FindsList(r, 0, types, vs);
    FindsList(g, 0, types, vs);
    SettledFits(r, g, types, vs);
  }

  lemma SettledInward(w: World, types: seq<Type>, vs: seq<Val>)
    requires ListHas(types, vs) && AllList(Settles(w), types, vs)
    ensures AllList(Deeper(Fixes(w)), types, vs)
  {
    hide OccursList, ListHas, Keyed, Deeper;
    forall x | OccursList(x, types, vs) ensures Deeper(Fixes(w))(x) {
      assert Settles(w)(x);
    }
  }

  /** Whatever the values: all passes of all runs find every yield exactly when in none of them the key of
      one has unwritten bytes, or an order inside that they decide. */
  lemma YieldsFound(run: World, types: seq<Type>, a: seq<Val>)
    requires ListHas(types, a) && Usable(run, types, a)
    ensures (forall g: Pass :: Runs(run.inner, g) ==> GetsList(g, 0, types, a)) <==>
            (forall w: World :: w.inner == run.inner && Fair(w) ==> AllList(YieldsFixed(w), types, a))
  {
    hide AllList, ListHas, Usable, Fair, GetsList, Keys, Fixes, YieldsFixed, Lined;
    if forall w: World :: w.inner == run.inner && Fair(w) ==> AllList(YieldsFixed(w), types, a) {
      forall g: Pass | Runs(run.inner, g) ensures GetsList(g, 0, types, a) {
        UsableToo(run, g(0), types, a);
        UsableIs(g(0), types, a);
        FindsList(g, 0, types, a);
      }
    }
    if forall g: Pass :: Runs(run.inner, g) ==> GetsList(g, 0, types, a) {
      forall w: World | w.inner == run.inner && Fair(w) ensures AllList(YieldsFixed(w), types, a) {
        UsableToo(run, w, types, a);
        if !AllList(YieldsFixed(w), types, a) {
          var g := MissesLoose(w, types, a);
        }
      }
    }
  }

  lemma MissesLoose(w: World, types: seq<Type>, a: seq<Val>) returns (g: Pass)
    requires ListHas(types, a) && Usable(w, types, a) && Fair(w) && !AllList(YieldsFixed(w), types, a)
    ensures Runs(w.inner, g) && !GetsList(g, 0, types, a)
  {
    hide AllList, ListHas, OccursList, Keyed, YieldFixed, Meets, GetsList, CoversList, Fair, Deeper;
    UsableIs(w, types, a);
    AllListIs(YieldsFixed(w), types, a);
    var x :| OccursList(x, types, a) && !YieldsFixed(w)(x);
    DeepensList(Keys(w), types, a);
    AllListIs(Deeper(Keys(w)), types, a);
    assert Deeper(Keys(w))(x);
    var w1, w2 := LooseYields(w, x);
    KeysTooList(w, w1, types, a);
    AllListIs(Meets(w1, w2), types, a);
    var k := MissesList(w1, w2, 0, types, a);
    g := Turning(w1, w2, k);
    TurningLined(w1, w2, k);
  }

  lemma LooseYields(w: World, x: Tab) returns (w1: World, w2: World)
    requires Keyed(w, x) && Fair(w) && Deeper(Keys(w))(x) && !YieldFixed(w, x)
    ensures SameRun(w1, w2) && w1.inner == w.inner && Fair(w1) && Fair(w2) && !Meets(w1, w2)(x)
  {
    hide Gap, CanonList, ListHas, HasType, StoredKey, CoversList, AlikeList, Meets, Fair, FixedKey, AllList, OccursList;
    var i :| 0 <= i < |x.entries| &&
             !(EntryHas(x.index, x.result, x.entries[i]) && FixedKey(w, x.index, x.entries[i].index));
    var index, vs := x.index, x.entries[i].index;
    assert EntryHas(index, x.result, x.entries[i]);
    AllListIs(Keys(w), index, vs);
    assert Usable(w, index, vs) by {
      assert forall y :: OccursList(y, index, vs) ==> Keys(w)(y);
    }
    w1, w2 := LooseKey(w, index, vs);
    FormAcross(w, w1, w2, index, vs);
    MeetsIs(w1, w2, x);
  }

  /** What one run writes, written in another, is what that writes. */
  lemma FormAcross(w: World, w1: World, w2: World, types: seq<Type>, vs: seq<Val>)
    requires ListHas(types, vs) && AllList(Keys(w), types, vs) && w1.inner == w.inner && w2.inner == w.inner
    ensures CanonList(w2, types, CanonList(w1, types, vs)) == CanonList(w2, types, vs)
  {
    hide AllList, ListHas, CanonList, AlikeList, Keys;
    KeysTooList(w, w1, types, vs);
    KeysTooList(w, w2, types, vs);
    KeyedAgainList(w1, types, vs);
    KeysTooList(w1, w2, types, CanonList(w1, types, vs));
    CanonIsAlikeList(w1, types, vs);
    SameForm(w2, types, vs, CanonList(w1, types, vs));
  }
}

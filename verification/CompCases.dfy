/** Values whose keys depend on bytes nobody wrote: two with yields that are not found, one that does not fit
    what was reserved for it, and one that can be made all the same. */
module CompCases {
  import opened HashBytes
  import opened CompVals
  import opened CompOrder
  import opened CompGap
  import opened CompCanon
  import opened CompWhole
  import opened CompLoose
  import opened CompAgain
  import opened CompPass
  import opened CompFound
  import opened CompMade

  // ---------------------------------------------------------------- values of one entry

  lemma OneHas(index: seq<Type>, result: Yield, e: Entry)
    requires EntryHas(index, result, e)
    ensures HasType(TTable(index, result), Table([e])) && ListHas([TTable(index, result)], [Table([e])])
    ensures TabOk(Tab(index, result, [e]))
  {
    hide EntryHas;
    assert forall i :: 0 <= i < |[e]| ==> EntryHas(index, result, [e][i]);
    assert HasType(TTable(index, result), Table([e]));
  }

  lemma OneAll(P: Tab -> bool, index: seq<Type>, result: Yield, e: Entry)
    requires EntryHas(index, result, e) && ListHas([TTable(index, result)], [Table([e])])
    ensures AllList(P, [TTable(index, result)], [Table([e])]) <==>
            P(Tab(index, result, [e])) && AllEntry(P, index, result, e)
  {
    hide EntryHas, All, AllList, AllEntry;
    var t, v := TTable(index, result), Table([e]);
    assert [t][0] == t && [v][0] == v;
    AllVals(P, [t], [v]);
    AllTable(P, index, result, v);
    assert v.entries == [e] && [e][0] == e;
  }

  lemma OneKeyed(w: World, index: seq<Type>, result: Yield, e: Entry)
    requires EntryHas(index, result, e) && w.inner(index) == [] && CoversList([], e.index)
    ensures Keyed(w, Tab(index, result, [e])) && Fixed(w, Tab(index, result, [e]))
  {
    hide EntryHas, CoversList, AlikeList;
  }

  lemma OneGapped(c: Cursor, index: seq<Type>, result: Yield, e: Entry)
    requires EntryHas(index, result, e) && HasType(TTable(index, result), Table([e]))
    ensures Gapped(c, TTable(index, result), Table([e])) == GappedEntry(Aligned(c, 4, 4), index, result, e)
  {
    hide EntryHas, GappedEntry, Aligned;
    assert [e][..0] == [];
    var c1 := Aligned(c, 4, 4);
    assert GappedEntries(c1, index, result, [e]) == GappedEntry(GappedEntries(c1, index, result, []), index, result, e);
  }

  lemma OneListed(c: Cursor, t: Type, v: Val)
    requires HasType(t, v) && ListHas([t], [v])
    ensures GappedList(c, [t], [v]) == Gapped(c, t, v)
  {
    hide HasType, Gapped;
    assert [t][..0] == [] && [v][..0] == [];
    assert GappedList(c, [t], [v]) == Gapped(GappedList(c, [], []), t, v);
  }

  // ---------------------------------------------------------------- a yield that is not found

  /** The table { [[hole]] = 5 }, indexed by vectors of counts. */
  const YieldTypes: seq<Type> := [TTable([TVector(TCount)], YieldOf(TCount))]

  const YieldEntry := Entry([Vector([Absent])], Just(Count(5)))

  const YieldVals: seq<Val> := [Table([YieldEntry])]

  lemma YieldHas()
    ensures EntryHas([TVector(TCount)], YieldOf(TCount), YieldEntry) && ListHas(YieldTypes, YieldVals)
  {
    hide HasType, ListHas;
    HolesHave(TCount, [Absent]);
    CountHas();
    OneHas([TVector(TCount)], YieldOf(TCount), YieldEntry);
  }

  lemma CountHas()
    ensures HasType(TCount, Count(5))
  {
  }

  lemma OnWord(k: nat)
    ensures Aligned(Cursor(4 * k, 0), 4, 4) == Cursor(4 * k + 4, 0) && Flagged(Cursor(4 * k, 0)) == Cursor(4 * k + 1, 3)
    ensures Aligned(Cursor(4 * k + 1, 3), 4, 4) == Cursor(4 * k + 8, 0)
  {
    hide AlignUp;
    Align4At(k);
    Align4(4 * k);
    Align4(4 * k + 1);
    Align4(4 * k + 4);
  }

  lemma Align4At(k: nat)
    ensures (4 * k) % 4 == 0 && (4 * k + 1) % 4 == 1 && (4 * k + 4) % 4 == 0
  {
  }

  /** A long word after a flag takes up the difference. */
  lemma LongAfterFlag(k: nat)
    ensures Aligned(Cursor(8 * k + 1, 3), 8, 8) == Cursor(8 * k + 16, 0)
    ensures Aligned(Cursor(8 * k + 5, 3), 8, 8) == Cursor(8 * k + 16, 0)
  {
    hide AlignUp;
    Align8At(k, 1);
    Align8At(k, 4);
    Align8At(k, 5);
    Align8At(k, 8);
  }

  lemma Align8At(k: nat, i: nat)
    requires 1 <= i <= 8
    ensures AlignUp(8 * k + i, 8) == 8 * k + 8
  {
  }

  /** Its key has no unwritten bytes. */
  lemma YieldNoGap()
    ensures ListHas(YieldTypes, YieldVals) && Gap(YieldTypes, YieldVals) == 0
  {
    hide ListHas, GappedList;
    YieldEnds(0);
    GapOf(YieldTypes, YieldVals);
  }

  lemma YieldEnds(k: nat)
    ensures ListHas(YieldTypes, YieldVals) &&
            GappedList(Cursor(8 * k, 0), YieldTypes, YieldVals) == Cursor(8 * k + 32, 0)
  {
    hide HasType, ListHas, Aligned, Flagged, Gapped, GappedList, GappedEntry, EntryHas;
    YieldHas();
    var index, t, v := [TVector(TCount)], YieldTypes[0], YieldVals[0];
    assert YieldTypes == [t] && YieldVals == [v];
    OneHas(index, YieldOf(TCount), YieldEntry);
    OneListed(Cursor(8 * k, 0), t, v);
    OneGapped(Cursor(8 * k, 0), index, YieldOf(TCount), YieldEntry);
    OnWord(2 * k);
    YieldEntryEnds(k);
  }

  lemma YieldEntryEnds(k: nat)
    ensures EntryHas([TVector(TCount)], YieldOf(TCount), YieldEntry)
    ensures GappedEntry(Cursor(8 * k + 4, 0), [TVector(TCount)], YieldOf(TCount), YieldEntry) == Cursor(8 * k + 32, 0)
  {
    hide HasType, ListHas, Aligned, Flagged, GappedList, Gapped;
    YieldHas();
    HolesHave(TCount, [Absent]);
    OneListed(Cursor(8 * k + 8, 0), TVector(TCount), Vector([Absent]));
    HoleEnds(Cursor(8 * k + 8, 0));
    OnWord(2 * k + 1);
    OnWord(2 * k + 2);
    OnWord(2 * k + 3);
    OnWord(2 * k + 4);
    LongAfterFlag(k + 2);
    CountEnds(Cursor(8 * k + 17, 3));
  }

  lemma HoleEnds(c: Cursor)
    requires HasType(TVector(TCount), Vector([Absent]))
    ensures Gapped(c, TVector(TCount), Vector([Absent])) == Flagged(Aligned(Aligned(c, 4, 4), 4, 4))
  {
    hide Aligned, Flagged, GappedElems;
    OneElement(Aligned(c, 4, 4), TCount);
  }

  lemma CountEnds(c: Cursor)
    ensures HasType(TCount, Count(5)) && Gapped(c, TCount, Count(5)) == Aligned(c, 8, 8)
  {
    hide Aligned;
  }

  /** No unwritten bytes are in the key or decide an order, but the index has some: in some run the lookup
      of the yield finds nothing, and the key cannot be made. */
  lemma YieldNotFound() returns (g: Pass)
    ensures ListHas(YieldTypes, YieldVals) && Usable(g(0), YieldTypes, YieldVals) && Runs(g(0).inner, g)
    ensures FixedKey(g(0), YieldTypes, YieldVals) && !FirmKey(g(0), YieldTypes, YieldVals)
    ensures !GetsList(g, 0, YieldTypes, YieldVals) && !Makes(g, g, YieldTypes, YieldVals)
  {
    hide ListHas, AllList, GetsList, YieldFirms, Usable, FixedKey, FirmKey, Runs, Fair;
    var w := Zeroed(_ => 0, _ => []);
    YieldHas();
    YieldUsable(w);
    YieldLoose(w);
    NotYieldFirm(w, YieldTypes, YieldVals);
    g := MissesYield(w, YieldTypes, YieldVals);
  }

  lemma YieldUsable(w: World)
    requires w.inner == (_ => []) && ListHas(YieldTypes, YieldVals)
    ensures Usable(w, YieldTypes, YieldVals)
  {
    hide EntryHas, ListHas, AllEntry, Keyed, OccursList;
    var index, result := [TVector(TCount)], YieldOf(TCount);
    YieldHas();
    HolesHave(TCount, [Absent]);
    OneKeyed(w, index, result, YieldEntry);
    YieldInside(Keys(w));
    OneAll(Keys(w), index, result, YieldEntry);
    YieldCovered();
    assert forall x :: OccursList(x, YieldTypes, YieldVals) ==> Keys(w)(x);
  }

  lemma YieldInside(P: Tab -> bool)
    ensures EntryHas([TVector(TCount)], YieldOf(TCount), YieldEntry)
    ensures AllEntry(P, [TVector(TCount)], YieldOf(TCount), YieldEntry)
  {
    hide ListHas, OccursList;
    YieldHas();
    HolesHave(TCount, [Absent]);
  }

  lemma YieldCovered()
    ensures CoversList([], YieldVals)
  {
    HolesHave(TCount, [Absent]);
    assert CoversEntry([], YieldEntry);
    assert Covers([], YieldVals[0]);
  }

  lemma YieldLoose(w: World)
    requires ListHas(YieldTypes, YieldVals) && Usable(w, YieldTypes, YieldVals) && w.inner == (_ => [])
    ensures FixedKey(w, YieldTypes, YieldVals) && !FirmKey(w, YieldTypes, YieldVals)
  {
    hide EntryHas, ListHas, AllEntry, Keyed, OccursList, Gap, CanonList, HasType;
    var index, result := [TVector(TCount)], YieldOf(TCount);
    YieldHas();
    HolesHave(TCount, [Absent]);
    OneKeyed(w, index, result, YieldEntry);
    YieldInside(Fixes(w));
    OneAll(Fixes(w), index, result, YieldEntry);
    OneAll(Firms(w), index, result, YieldEntry);
    YieldCanon(w);
    YieldNoGap();
    HolesCanon(w, TCount, [Absent]);
    VectorGap(TCount, [Absent]);
    var x := Tab(index, result, [YieldEntry]);
    assert x.entries[0] == YieldEntry && !FirmEntry(w, index, result, YieldEntry);
    assert !Firm(w, x);
    assert !Firms(w)(x);
    assert forall y :: OccursList(y, YieldTypes, YieldVals) ==> Fixes(w)(y);
    UsableIs(w, YieldTypes, YieldVals);
  }

  lemma YieldCanon(w: World)
    requires ListHas(YieldTypes, YieldVals)
    ensures CanonList(w, YieldTypes, YieldVals) == YieldVals
  {
    hide ListHas, EntryHas, CanonEntry;
    YieldHas();
    YieldEntryCanon(w);
    OneCanon(w, [TVector(TCount)], YieldOf(TCount), YieldEntry);
  }

  lemma YieldEntryCanon(w: World)
    ensures EntryHas([TVector(TCount)], YieldOf(TCount), YieldEntry)
    ensures CanonEntry(w, [TVector(TCount)], YieldOf(TCount), YieldEntry) == YieldEntry
  {
    hide ListHas, CanonList;
    YieldHas();
    HolesHave(TCount, [Absent]);
    HolesCanon(w, TCount, [Absent]);
  }

  /** A table of one entry has one order. */
  lemma OneCanon(w: World, index: seq<Type>, result: Yield, e: Entry)
    requires EntryHas(index, result, e) && ListHas([TTable(index, result)], [Table([e])])
    ensures CanonList(w, [TTable(index, result)], [Table([e])]) == [Table([CanonEntry(w, index, result, e)])]
  {
    hide EntryHas, CanonEntry;
    var t, v := TTable(index, result), Table([e]);
    OneHas(index, result, e);
    assert Canon(w, t, v) == Table(CanonTable(w, index, result, [e]));
    OneSorted(w, index, result, e);
    assert [t][0] == t && [v][0] == v;
  }

  lemma OneSorted(w: World, index: seq<Type>, result: Yield, e: Entry)
    requires EntryHas(index, result, e) && TabOk(Tab(index, result, [e]))
    ensures CanonTable(w, index, result, [e]) == [CanonEntry(w, index, result, e)]
  {
    hide EntryHas, CanonEntry, Sorted;
    var cs := CanonTable(w, index, result, [e]);
    var all := CanonEntries(w, index, result, [e]);
    assert all[0] == CanonEntry(w, index, result, [e][0]);
    assert all == [CanonEntry(w, index, result, e)];
    assert cs[0] in cs && cs[0] in all;
  }

  // ---------------------------------------------------------------- tables of two entries

  /** The table { [[hole]] = 5, [[hole, hole]] = 6 }; without its yields it is `Holes`. */
  ghost function YieldPair(): Tab {
    Tab([TVector(TCount)], YieldOf(TCount), [YieldEntry, Entry([Vector([Absent, Absent])], Just(Count(6)))])
  }

  /** The table as the only value of a key. */
  function Alone(x: Tab): seq<Val> { [Table(x.entries)] }

  function AloneType(x: Tab): seq<Type> { [TTable(x.index, x.result)] }

  ghost predicate Pair(x: Tab) { x == Holes() || x == YieldPair() }

  lemma PairTab(x: Tab)
    requires Pair(x)
    ensures x.index == [TVector(TCount)] && |x.entries| == 2
    ensures x.entries[0].index == [Vector([Absent])] && x.entries[1].index == [Vector([Absent, Absent])]
    ensures forall i :: 0 <= i < 2 ==>
              EntryHas(x.index, x.result, x.entries[i]) && forall funcs :: CoversEntry(funcs, x.entries[i])
    ensures forall i, y :: 0 <= i < 2 ==> !OccursEntry(y, x.index, x.result, x.entries[i])
  {
    hide ListHas, CoversList, OccursList;
    HolesHave(TCount, [Absent]);
    HolesHave(TCount, [Absent, Absent]);
  }

  lemma AloneHas(x: Tab)
    requires Pair(x)
    ensures TabOk(x) && HasType(TTable(x.index, x.result), Table(x.entries)) && ListHas(AloneType(x), Alone(x))
    ensures forall funcs :: CoversList(funcs, Alone(x))
    ensures forall y :: OccursList(y, AloneType(x), Alone(x)) <==> y == x
  {
    hide Pair, EntryHas, CoversEntry, OccursEntry;
    PairTab(x);
    var t, v := TTable(x.index, x.result), Table(x.entries);
    assert HasType(t, v);
    assert forall funcs :: Covers(funcs, v);
    assert [t][0] == t && [v][0] == v;
    forall y ensures OccursList(y, [t], [v]) <==> y == x {
      assert OccursList(y, [t], [v]) == Occurs(y, [t][0], [v][0]);
      assert !OccursEntries(y, x.index, x.result, v.entries);
    }
  }

  lemma PairKeyed(w: World, x: Tab)
    requires Pair(x) && |w.inner(x.index)| <= TWO32
    ensures TabOk(x) && Settles(w)(x) && (YieldFirm(w, x) <==> x == Holes())
  {
    hide ListHas, CoversList, OccursList, AlikeList, Gap, CanonList;
    PairTab(x);
    HolesDiffer();
    HolesCanon(w, TCount, [Absent]);
    VectorGap(TCount, [Absent]);
    assert forall i :: 0 <= i < 2 ==> CoversEntry(w.inner(x.index), x.entries[i]);
    forall i | 0 <= i < 2 ensures AllList(Fixes(w), x.index, x.entries[i].index) {
      assert forall y :: OccursList(y, x.index, x.entries[i].index) ==> OccursEntry(y, x.index, x.result, x.entries[i]);
    }
    assert EntryHas(x.index, x.result, x.entries[0]) && !FirmEntry(w, x.index, x.result, x.entries[0]);
  }

  /** Unwritten bytes decide the order of both, which no two runs need to agree on. The key of the set can be
      made in all of them; that of the table with yields cannot. */
  lemma PairsMade(w: World, x: Tab)
    requires Pair(x) && Fair(w) && |w.inner(x.index)| <= TWO32 && |w.inner(AloneType(x))| <= TWO32
    ensures ListHas(AloneType(x), Alone(x)) && Usable(w, AloneType(x), Alone(x))
    ensures (forall r: Pass, g: Pass :: Runs(w.inner, r) && Runs(w.inner, g) && r(0) == w && g(0) == w ==>
               Makes(r, g, AloneType(x), Alone(x)))
            <==> x == Holes()
  {
    hide ListHas, OccursList, Pair, Holes, CoversList, Keyed, Inward, YieldFirm, Runs, Makes, Fair, AloneType, Alone;
    AloneHas(x);
    PairKeyed(w, x);
    assert Settles(w)(x);
    AllListIs(Settles(w), AloneType(x), Alone(x));
    AllListIs(YieldFirms(w), AloneType(x), Alone(x));
    assert OccursList(x, AloneType(x), Alone(x)) && (YieldFirms(w)(x) <==> YieldFirm(w, x));
    MadeExactly(w, AloneType(x), Alone(x));
  }

  // ---------------------------------------------------------------- a key that does not fit

  /** The set of sets { { ["", [hole]], ["", [1]] } }, indexed inside by a string and a vector of counts. */
  const PairIndex: seq<Type> := [TString, TVector(TCount)]

  const HoleEntry := Entry([Str([]), Vector([Absent])], Absent)

  const CountEntry := Entry([Str([]), Vector([Just(Count(1))])], Absent)

  const InnerType := TTable(PairIndex, NoYield)

  const InnerTab := Tab(PairIndex, NoYield, [HoleEntry, CountEntry])

  const InnerVal := Table([HoleEntry, CountEntry])

  const OuterTypes: seq<Type> := [TTable([InnerType], NoYield)]

  ghost function Outer(inner: Val): seq<Val> { [Table([Entry([inner], Absent)])] }

  ghost predicate OneOf(os: seq<Maybe>) { os == [Absent] || os == [Just(Count(1))] }

  lemma OneOfHas(os: seq<Maybe>)
    requires OneOf(os)
    ensures HasType(TVector(TCount), Vector(os)) && forall i :: 0 <= i < |os| ==> ElemHas(TCount, os[i])
    ensures forall funcs :: Covers(funcs, Vector(os))
    ensures forall y :: !Occurs(y, TVector(TCount), Vector(os))
    ensures forall w :: Canon(w, TVector(TCount), Vector(os)) == Vector(os)
  {
    assert HasType(TCount, Count(1));
    assert ElemHas(TCount, os[0]);
    forall funcs ensures Covers(funcs, Vector(os)) {
      assert CoversMaybe(funcs, os[0]);
    }
    forall y ensures !Occurs(y, TVector(TCount), Vector(os)) {
      assert !OccursMaybe(y, TCount, os[0]);
      assert Occurs(y, TVector(TCount), Vector(os)) == OccursElems(y, TCount, Vector(os).elems);
    }
    forall w ensures Canon(w, TVector(TCount), Vector(os)) == Vector(os) {
      assert CanonMaybe(w, TCount, os[0]) == os[0];
      assert CanonElems(w, TCount, os) == os;
    }
  }

  lemma PairHas(os: seq<Maybe>)
    requires OneOf(os)
    ensures ListHas(PairIndex, [Str([]), Vector(os)]) &&
            EntryHas(PairIndex, NoYield, Entry([Str([]), Vector(os)], Absent))
    ensures forall funcs :: CoversList(funcs, [Str([]), Vector(os)])
    ensures forall y :: !OccursList(y, PairIndex, [Str([]), Vector(os)])
    ensures forall w :: CanonList(w, PairIndex, [Str([]), Vector(os)]) == [Str([]), Vector(os)]
  {
    OneOfHas(os);
    hide OneOf;
    StringHas();
    hide HasType, Occurs, Canon, Covers;
    var vs := [Str([]), Vector(os)];
    assert vs[0] == Str([]) && vs[1] == Vector(os) && PairIndex[0] == TString && PairIndex[1] == TVector(TCount);
    assert ListHas(PairIndex, vs);
    forall w ensures CanonList(w, PairIndex, vs) == vs {
      assert CanonList(w, PairIndex, vs)[0] == Canon(w, PairIndex[0], vs[0]);
    }
  }

  lemma StringHas()
    ensures HasType(TString, Str([])) && (forall funcs :: Covers(funcs, Str([])))
    ensures (forall y :: !Occurs(y, TString, Str([]))) && forall w :: Canon(w, TString, Str([])) == Str([])
  {
  }

  lemma PairsDiffer()
    ensures !AlikeList(HoleEntry.index, CountEntry.index)
  {
    assert !AlikeMaybe(Absent, Just(Count(1)));
    assert [Absent][0] == Absent && [Just(Count(1))][0] == Just(Count(1));
    assert !AlikeMaybes([Absent], [Just(Count(1))]);
    assert !Alike(HoleEntry.index[1], CountEntry.index[1]);
  }

  lemma InnerOk(w: World)
    requires w.inner(PairIndex) == []
    ensures TabOk(InnerTab) && HasType(InnerType, InnerVal) && Keyed(w, InnerTab)
    ensures forall y :: !OccursEntries(y, PairIndex, NoYield, InnerTab.entries)
  {
    hide ListHas, CoversList, AlikeList, OccursList;
    PairHas([Absent]);
    PairHas([Just(Count(1))]);
    PairsDiffer();
    assert EntryHas(PairIndex, NoYield, HoleEntry) && EntryHas(PairIndex, NoYield, CountEntry);
    assert InnerTab.entries[0] == HoleEntry && InnerTab.entries[1] == CountEntry;
  }

  // ---------------------------------------------------------------- how long it is

  lemma TypesEnd(c: Cursor, os: seq<Maybe>)
    requires HasType(TVector(TCount), Vector(os))
    ensures HasType(TString, Str([])) && Gapped(c, TString, Str([])) == Plain(Aligned(c, 4, 4), 0)
    ensures forall i :: 0 <= i < |os| ==> ElemHas(TCount, os[i])
    ensures Gapped(c, TVector(TCount), Vector(os)) == GappedElems(Aligned(c, 4, 4), TCount, os)
  {
    hide Aligned, GappedElems, ElemHas;
  }

  lemma PairEnds(c: Cursor, os: seq<Maybe>)
    requires EntryHas(PairIndex, NoYield, Entry([Str([]), Vector(os)], Absent)) && HasType(TVector(TCount), Vector(os))
    ensures forall i :: 0 <= i < |os| ==> ElemHas(TCount, os[i])
    ensures var c1 := Aligned(Plain(Aligned(Aligned(c, 4, 4), 4, 4), 0), 4, 4);
            GappedEntry(c, PairIndex, NoYield, Entry([Str([]), Vector(os)], Absent)) == GappedElems(c1, TCount, os)
  {
    hide Aligned, Plain, Gapped, GappedElems, GappedList, HasType, ListHas, ElemHas;
    var c0 := Aligned(c, 4, 4);
    TypesEnd(c0, os);
    TypesEnd(Plain(Aligned(c0, 4, 4), 0), os);
    TwoListed(c0, TString, Str([]), TVector(TCount), Vector(os));
  }

  lemma CountElement(c: Cursor)
    ensures ElemHas(TCount, Just(Count(1)))
    ensures GappedElems(c, TCount, [Just(Count(1))]) == Aligned(Flagged(Aligned(c, 4, 4)), 8, 8)
  {
    hide Aligned, Flagged;
    var os := [Just(Count(1))];
    assert HasType(TCount, Count(1)) && ElemHas(TCount, os[0]);
    assert os[..0] == [];
    assert GappedElems(c, TCount, os) == GappedElem(GappedElems(c, TCount, []), TCount, os[0]);
  }

  lemma HoleEnd(k: nat, c: Cursor)
    requires c == Cursor(4 * k, 0)
    ensures EntryHas(PairIndex, NoYield, HoleEntry)
    ensures GappedEntry(c, PairIndex, NoYield, HoleEntry) == Cursor(4 * k + 17, 3)
  {
    hide Aligned, Flagged, GappedElems, GappedEntry, HasType, EntryHas;
    PairHas([Absent]);
    OneOfHas([Absent]);
    PairEnds(c, [Absent]);
    OnWord(k);
    OnWord(k + 1);
    OnWord(k + 2);
    OnWord(k + 3);
    OnWord(k + 4);
    OneElement(Cursor(4 * k + 12, 0), TCount);
  }

  lemma CountEnd(k: nat, c: Cursor)
    requires Aligned(c, 4, 4) == Cursor(4 * k + 4, 0)
    ensures EntryHas(PairIndex, NoYield, CountEntry)
    ensures GappedEntry(c, PairIndex, NoYield, CountEntry) == Aligned(Cursor(4 * k + 17, 3), 8, 8)
  {
    hide Aligned, Flagged, GappedElems, GappedEntry, HasType, EntryHas;
    PairHas([Just(Count(1))]);
    OneOfHas([Just(Count(1))]);
    PairEnds(c, [Just(Count(1))]);
    OnWord(k + 1);
    OnWord(k + 2);
    OnWord(k + 3);
    OnWord(k + 4);
    CountElement(Cursor(4 * k + 12, 0));
  }

  lemma TwoEntries(c: Cursor, a: Entry, b: Entry)
    requires EntryHas(PairIndex, NoYield, a) && EntryHas(PairIndex, NoYield, b)
    ensures HasType(InnerType, Table([a, b]))
    ensures Gapped(c, InnerType, Table([a, b])) ==
            GappedEntry(GappedEntry(Aligned(c, 4, 4), PairIndex, NoYield, a), PairIndex, NoYield, b)
  {
    hide EntryHas, GappedEntry, Aligned;
    var c1 := Aligned(c, 4, 4);
    assert [a, b][..1] == [a] && [a][..0] == [];
    assert forall i :: 0 <= i < |[a, b]| ==> EntryHas(PairIndex, NoYield, [a, b][i]);
    assert GappedEntries(c1, PairIndex, NoYield, [a, b]) ==
           GappedEntry(GappedEntries(c1, PairIndex, NoYield, [a]), PairIndex, NoYield, b);
    assert GappedEntries(c1, PairIndex, NoYield, [a]) ==
           GappedEntry(GappedEntries(c1, PairIndex, NoYield, []), PairIndex, NoYield, a);
  }

  lemma OuterHas(inner: Val)
    requires HasType(InnerType, inner)
    ensures ListHas([InnerType], [inner]) && EntryHas([InnerType], NoYield, Entry([inner], Absent)) &&
            ListHas(OuterTypes, Outer(inner))
  {
    hide HasType;
    assert [InnerType][0] == InnerType && [inner][0] == inner;
    OneHas([InnerType], NoYield, Entry([inner], Absent));
  }

  lemma OuterEnds(k: nat, inner: Val)
    requires HasType(InnerType, inner)
    ensures ListHas(OuterTypes, Outer(inner))
    ensures GappedList(Cursor(4 * k, 0), OuterTypes, Outer(inner)) == Gapped(Cursor(4 * k + 8, 0), InnerType, inner)
  {
    hide HasType, ListHas, EntryHas, Aligned, Gapped, GappedList, GappedEntry;
    var e := Entry([inner], Absent);
    OuterHas(inner);
    OneHas([InnerType], NoYield, e);
    OneListed(Cursor(4 * k, 0), OuterTypes[0], Table([e]));
    OneGapped(Cursor(4 * k, 0), [InnerType], NoYield, e);
    OnWord(k);
    OnWord(k + 1);
    SetEntry(Cursor(4 * k + 4, 0), inner);
  }

  lemma SetEntry(c: Cursor, inner: Val)
    requires HasType(InnerType, inner) && EntryHas([InnerType], NoYield, Entry([inner], Absent)) &&
             ListHas([InnerType], [inner])
    ensures GappedEntry(c, [InnerType], NoYield, Entry([inner], Absent)) == Gapped(Aligned(c, 4, 4), InnerType, inner)
  {
    hide HasType, Aligned, Gapped, GappedList;
    OneListed(Aligned(c, 4, 4), InnerType, inner);
  }

  /** From the start, sixty-four bytes are written with the hole first, and sixty are reserved with the hole
      last. */
  lemma OrdersEnd(k: nat)
    ensures HasType(InnerType, Table([HoleEntry, CountEntry])) && HasType(InnerType, Table([CountEntry, HoleEntry]))
    ensures Gapped(Cursor(8 * k + 8, 0), InnerType, Table([HoleEntry, CountEntry])) == Cursor(8 * k + 64, 0)
    ensures Gapped(Cursor(8 * k + 8, 0), InnerType, Table([CountEntry, HoleEntry])) == Cursor(8 * k + 57, 3)
  {
    hide HasType, EntryHas, Aligned, Gapped, GappedEntry, Flagged;
    OnWord(2 * k + 2);
    OnWord(2 * k + 3);
    OnWord(2 * k + 7);
    HoleEnd(2 * k + 3, Cursor(8 * k + 12, 0));
    CountEnd(2 * k + 8, Cursor(8 * k + 29, 3));
    LongAfterFlag(k + 6);
    TwoEntries(Cursor(8 * k + 8, 0), HoleEntry, CountEntry);
    CountEnd(2 * k + 3, Cursor(8 * k + 12, 0));
    LongAfterFlag(k + 3);
    HoleEnd(2 * k + 10, Cursor(8 * k + 40, 0));
    TwoEntries(Cursor(8 * k + 8, 0), CountEntry, HoleEntry);
  }

  lemma LengthIs(funcs: seq<nat>, types: seq<Type>, vs: seq<Val>)
    requires ListHas(types, vs) && |types| == 1 && !types[0].TString?
    ensures var c := GappedList(Cursor(0, 0), types, vs);
            |KeyBytes(funcs, types, vs)| == c.at && Room(types, vs) == c.at + c.gap
  {
    hide ListHas, ListOps, GappedList;
    ListFollows(funcs, types, vs, [], 0, Cursor(0, 0));
    ListFollows([], types, vs, [], 0, Cursor(0, 0));
  }

  lemma Lengths(funcs: seq<nat>)
    ensures ListHas(OuterTypes, Outer(Table([HoleEntry, CountEntry]))) &&
            ListHas(OuterTypes, Outer(Table([CountEntry, HoleEntry])))
    ensures |KeyBytes(funcs, OuterTypes, Outer(Table([HoleEntry, CountEntry])))| == 64
    ensures Room(OuterTypes, Outer(Table([CountEntry, HoleEntry]))) == 60
  {
    hide ListHas, HasType, GappedList, Gapped, KeyBytes, Room, Outer;
    OrdersEnd(0);
    OuterEnds(0, Table([HoleEntry, CountEntry]));
    OuterEnds(0, Table([CountEntry, HoleEntry]));
    LengthIs(funcs, OuterTypes, Outer(Table([HoleEntry, CountEntry])));
    LengthIs(funcs, OuterTypes, Outer(Table([CountEntry, HoleEntry])));
  }

  // ---------------------------------------------------------------- in what order it is written

  lemma SortedTwo(w: World, index: seq<Type>, a: Entry, b: Entry)
    requires ListHas(index, a.index) && ListHas(index, b.index) && Indexed(index, [a, b])
    ensures Sorted(w, index, [a, b]) == if EntryBefore(w, index, a, b) then [a, b] else [b, a]
  {
    hide EntryBefore, ListHas;
    assert [a, b][..1] == [a] && [a][..0] == [];
    assert Sorted(w, index, [a]) == Placed(w, index, Sorted(w, index, []), a);
    assert Sorted(w, index, [a, b]) == Placed(w, index, Sorted(w, index, [a]), b);
    assert Placed(w, index, [a], b) == if EntryBefore(w, index, a, b) then [a] + [b] else Placed(w, index, [], b) + [a];
  }

  lemma InnerOrder(w: World)
    requires HasType(InnerType, InnerVal) && ListHas(PairIndex, HoleEntry.index) && ListHas(PairIndex, CountEntry.index)
    ensures Canon(w, InnerType, InnerVal) ==
            if EntryBefore(w, PairIndex, HoleEntry, CountEntry) then Table([HoleEntry, CountEntry])
                else Table([CountEntry, HoleEntry])
  {
    hide EntryBefore, ListHas, CanonList, EntryHas, CanonEntry;
    PairForm(w, [Absent]);
    PairForm(w, [Just(Count(1))]);
    var all := CanonEntries(w, PairIndex, NoYield, InnerVal.entries);
    assert all[0] == CanonEntry(w, PairIndex, NoYield, InnerVal.entries[0]);
    assert all[1] == CanonEntry(w, PairIndex, NoYield, InnerVal.entries[1]);
    assert all == [HoleEntry, CountEntry];
    SortedTwo(w, PairIndex, HoleEntry, CountEntry);
  }

  lemma PairForm(w: World, os: seq<Maybe>)
    requires OneOf(os)
    ensures EntryHas(PairIndex, NoYield, Entry([Str([]), Vector(os)], Absent))
    ensures CanonEntry(w, PairIndex, NoYield, Entry([Str([]), Vector(os)], Absent)) ==
            Entry([Str([]), Vector(os)], Absent)
  {
    hide ListHas, CanonList, OneOf;
    PairHas(os);
  }

  /** Two runs alike but for unwritten bytes, in which the inner set is written in both orders. */
  lemma InnerTwoWays() returns (w1: World, w2: World)
    ensures SameRun(w1, w2) && Fair(w1) && Fair(w2) && w1.inner == (_ => []) && HasType(InnerType, InnerVal)
    ensures Canon(w1, InnerType, InnerVal) == Table([HoleEntry, CountEntry])
    ensures Canon(w2, InnerType, InnerVal) == Table([CountEntry, HoleEntry])
  {
    hide ListHas, HasType, Canon, Keyed, TabOk, Fair, Gap, CanonList, StoredKey, Before, OccursEntries, Fixed;
    var w := Zeroed(_ => 0, _ => []);
    InnerOk(w);
    PairHas([Absent]);
    PairHas([Just(Count(1))]);
    HoleGap();
    assert InnerTab.entries[0] == HoleEntry && InnerTab.entries[1] == CountEntry;
    w1, w2 := TurnsRound(w, InnerTab, 0, 1);
    InnerOrder(w1);
    InnerOrder(w2);
    EntryAsymmetric(w2, PairIndex, CountEntry, HoleEntry);
  }

  lemma HoleGap()
    ensures ListHas(PairIndex, HoleEntry.index) && Gap(PairIndex, HoleEntry.index) > 0
  {
    hide ListHas, HasType, Gapped, GappedList, Aligned, Flagged, Plain;
    PairHas([Absent]);
    OneOfHas([Absent]);
    HoleIndexEnds(0);
    GapOf(PairIndex, HoleEntry.index);
  }

  lemma HoleIndexEnds(k: nat)
    ensures ListHas(PairIndex, HoleEntry.index)
    ensures GappedList(Cursor(4 * k, 0), PairIndex, HoleEntry.index) == Cursor(4 * k + 13, 3)
  {
    hide ListHas, HasType, Gapped, GappedList, Aligned, Flagged, GappedElems, ElemHas;
    PairHas([Absent]);
    OneOfHas([Absent]);
    var c := Cursor(4 * k, 0);
    TypesEnd(c, [Absent]);
    OnWord(k);
    TypesEnd(Cursor(4 * k + 4, 0), [Absent]);
    OnWord(k + 1);
    OneElement(Cursor(4 * k + 8, 0), TCount);
    OnWord(k + 2);
    OnWord(k + 3);
    TwoListed(c, TString, Str([]), TVector(TCount), Vector([Absent]));
  }

  // ---------------------------------------------------------------- two passes

  lemma OneForm(g: Pass, d: nat, index: seq<Type>, e: Entry)
    requires EntryHas(index, NoYield, e) && ListHas([TTable(index, NoYield)], [Table([e])]) && ListHas(index, e.index)
    ensures FormList(g, d, [TTable(index, NoYield)], [Table([e])]) ==
            [Table([Entry(FormList(g, d + 1, index, CanonList(g(d), index, e.index)), Absent)])]
  {
    hide EntryHas, FormTable, CanonList;
    var t, v := TTable(index, NoYield), Table([e]);
    OneHas(index, NoYield, e);
    assert [t][0] == t && [v][0] == v;
    OneFormTable(g, d, t, e);
    assert Form(g, d, t, v) == Table(FormTable(g, d, t, v.entries));
    assert FormList(g, d, [t], [v]) == [Form(g, d, [t][0], [v][0])];
  }

  lemma OneFormTable(g: Pass, d: nat, t: Type, e: Entry)
    requires t.TTable? && t.result.NoYield? && TabOk(Tab(t.index, t.result, [e])) && EntryHas(t.index, t.result, e) &&
             ListHas(t.index, e.index)
    ensures FormTable(g, d, t, [e]) == [Entry(FormList(g, d + 1, t.index, CanonList(g(d), t.index, e.index)), Absent)]
  {
    hide EntryHas, ListHas, Sorted, CanonList, FetchedAll, FormList;
    var all := FetchedAll(g, d, t, [e]);
    OneFetched(g, d, t, e);
    var sorted := Sorted(g(d), t.index, all);
    assert sorted[0] in sorted && sorted[0] in all;
    assert sorted == all;
    assert FormTable(g, d, t, [e])[0] == Renewed(g, d, t, sorted[0]);
  }

  lemma OneFetched(g: Pass, d: nat, t: Type, e: Entry)
    requires t.TTable? && t.result.NoYield? && TabOk(Tab(t.index, t.result, [e])) && EntryHas(t.index, t.result, e) &&
             ListHas(t.index, e.index)
    ensures FetchedAll(g, d, t, [e]) == [Entry(CanonList(g(d), t.index, e.index), Absent)]
  {
    hide EntryHas, ListHas, CanonList, Hit;
    assert [e][0] == e;
    assert FetchedAll(g, d, t, [e])[0] == Fetched(g, d, t, [e], 0);
  }

  lemma InnerKeys(w: World)
    requires w.inner == (_ => [])
    ensures HasType(InnerType, InnerVal) && ListHas([InnerType], [InnerVal]) &&
            AllList(Keys(w), [InnerType], [InnerVal])
  {
    hide HasType, Keyed, TabOk, EntryHas, All, AllEntry, OccursEntry;
    InnerOk(w);
    OuterHas(InnerVal);
    var t := InnerType;
    assert [t][0] == t && [InnerVal][0] == InnerVal;
    AllVals(Keys(w), [t], [InnerVal]);
    AllTable(Keys(w), PairIndex, NoYield, InnerVal);
    assert InnerVal.entries == InnerTab.entries;
    NothingInside(Keys(w));
  }

  lemma NothingInside(P: Tab -> bool)
    ensures TabOk(InnerTab) && forall i :: 0 <= i < |InnerTab.entries| ==>
            AllEntry(P, PairIndex, NoYield, InnerTab.entries[i])
  {
    hide ListHas, OccursList;
    PairHas([Absent]);
    PairHas([Just(Count(1))]);
    assert InnerTab.entries[0] == HoleEntry && InnerTab.entries[1] == CountEntry;
  }

  /** In a pass that finds the inner set stored in any way, but meets other bytes in the set it makes anew,
      that set is written in the order of those. */
  lemma OuterForm(first: World, rest: World)
    requires SameRun(first, rest) && first.inner == (_ => []) && HasType(InnerType, InnerVal)
    ensures ListHas(OuterTypes, Outer(InnerVal))
    ensures FormList(Turning(first, rest, 0), 0, OuterTypes, Outer(InnerVal)) == Outer(Canon(rest, InnerType, InnerVal))
  {
    hide HasType, ListHas, EntryHas, AllList, CanonList, FormList, Canon, Keys, Fixes, Firms, Sure, AlikeList;
    var g, ts, vs := Turning(first, rest, 0), [InnerType], [InnerVal];
    OuterHas(InnerVal);
    OneForm(g, 0, ts, Entry(vs, Absent));
    InnerKeys(first);
    InnerKeys(rest);
    var c := CanonList(first, ts, vs);
    KeyedAgainList(first, ts, vs);
    KeysTooList(first, rest, ts, c);
    SureIs(g, 1, ts, c);
    FormIsCanonList(g, 1, ts, c);
    CanonIsAlikeList(first, ts, vs);
    SameForm(rest, ts, vs, c);
    ListOfOne(rest, InnerType, InnerVal);
  }

  lemma ListOfOne(w: World, t: Type, v: Val)
    requires HasType(t, v) && ListHas([t], [v])
    ensures CanonList(w, [t], [v]) == [Canon(w, t, v)]
  {
    hide HasType, Canon;
  }

  /** What one pass reserves is not enough for what the other writes, though both are of one run and begin
      with the same table. */
  lemma KeyOverruns() returns (r: Pass, g: Pass)
    ensures Runs(g(0).inner, g) && Runs(g(0).inner, r) && r(0) == g(0) && ListHas(OuterTypes, Outer(InnerVal))
    ensures |KeyBytes(g(0).inner(OuterTypes), OuterTypes, FormList(g, 0, OuterTypes, Outer(InnerVal)))| == 64
    ensures Room(OuterTypes, FormList(r, 0, OuterTypes, Outer(InnerVal))) == 60
    ensures !Makes(r, g, OuterTypes, Outer(InnerVal))
  {
    hide HasType, ListHas, Fair, Canon, FormList, KeyBytes, Room, GetsList, Outer;
    var w1, w2 := InnerTwoWays();
    r, g := Turning(w2, w2, 0), Turning(w2, w1, 0);
    OuterForm(w2, w2);
    OuterForm(w2, w1);
    Lengths([]);
  }
}

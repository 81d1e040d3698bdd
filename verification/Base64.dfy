/** Base64Converter: the encoder loop, the decoding table, the decoder that works on a caller's
    buffer, and the whole-string functions built on it. */
module Base64 {
  import opened Options
  import opened Octet
  import opened Base64Codec
  import opened Base64Text

  const CAPITALS: seq<Byte> :=
    [65, 66, 67, 68, 69, 70, 71, 72, 73, 74, 75, 76, 77, 78, 79, 80, 81, 82, 83, 84, 85, 86, 87, 88, 89, 90]

  const SMALLS: seq<Byte> :=
    [97, 98, 99, 100, 101, 102, 103, 104, 105, 106, 107, 108, 109, 110, 111, 112, 113, 114, 115, 116, 117, 118, 119,
     120, 121, 122]

  const DIGITS: seq<Byte> := [48, 49, 50, 51, 52, 53, 54, 55, 56, 57]

  const DEFAULT_ALPHABET: seq<Byte> := CAPITALS + SMALLS + DIGITS + [43, 47]

  function Series(first: nat, n: nat): (r: seq<Byte>)
    requires first + n <= 256
    ensures |r| == n && forall i :: 0 <= i < n ==> r[i] == first + i
  {
    seq(n, i requires 0 <= i < n => first + i)
  }

  lemma LettersAre()
    ensures CAPITALS == Series(65, 26) && SMALLS == Series(97, 26) && DIGITS == Series(48, 10)
  {
  }

  /** Table 1 of RFC 4648: the capital letters, the small ones, the digits, '+' and '/'. */
  lemma DefaultAlphabet()
    ensures DEFAULT_ALPHABET == Series(65, 26) + Series(97, 26) + Series(48, 10) + [43, 47]
    ensures IsAlphabet(DEFAULT_ALPHABET)
  {
    LettersAre();
    JoinedAlphabet();
  }

  lemma JoinedAlphabet()
    ensures IsAlphabet(Series(65, 26) + Series(97, 26) + Series(48, 10) + [43, 47])
  {
    hide Series;
  }

  /** The decoding table. Of equal entries of the alphabet the one entered last wins; '=' stands for 0. */
  method InitTable(alphabet: seq<Byte>) returns (table: array<int>)
    requires |alphabet| == 64
    ensures fresh(table) && IsTable(table[..], alphabet)
  {
    hide Known, Partial, IsTable;
    table := new int[256](_ => -1);
    EmptyTable(table[..], alphabet);
    var i := 0;
    while i < 26
      invariant 0 <= i <= 26 && table.Length == 256 && Partial(table[..], alphabet)
      invariant Known(table[..], alphabet, 0, i) && Known(table[..], alphabet, 26, 26 + i)
    {
      SetEntry(table, alphabet, i);
      KnownNext(table[..], alphabet, 0, i);
      SetEntry(table, alphabet, 26 + i);
      KnownNext(table[..], alphabet, 26, 26 + i);
      i := i + 1;
    }
    KnownJoin(table[..], alphabet, 0, 26, 52);
    i := 0;
    while i < 10
      invariant 0 <= i <= 10 && table.Length == 256 && Partial(table[..], alphabet)
      invariant Known(table[..], alphabet, 0, 52 + i)
    {
      SetEntry(table, alphabet, 52 + i);
      KnownNext(table[..], alphabet, 0, 52 + i);
      i := i + 1;
    }
    SetEntry(table, alphabet, 62);
    KnownNext(table[..], alphabet, 0, 62);
    SetEntry(table, alphabet, 63);
    KnownNext(table[..], alphabet, 0, 63);
    ghost var t := table[..];
    table[PAD] := 0;
    assert table[..] == t[PAD := 0];
    Completed(t, alphabet);
  }

  lemma EmptyTable(t: seq<int>, alphabet: seq<Byte>)
    requires |t| == 256 && |alphabet| == 64 && forall c :: 0 <= c < 256 ==> t[c] == -1
    ensures Partial(t, alphabet) && Known(t, alphabet, 0, 0) && Known(t, alphabet, 26, 26)
  {
  }

  lemma KnownNext(t: seq<int>, alphabet: seq<Byte>, lo: nat, hi: nat)
    requires |t| == 256 && hi < |alphabet| && Known(t, alphabet, lo, hi) && t[alphabet[hi]] >= 0
    ensures Known(t, alphabet, lo, hi + 1)
  {
  }

  lemma KnownJoin(t: seq<int>, alphabet: seq<Byte>, lo: nat, mid: nat, hi: nat)
    requires |t| == 256 && mid <= hi <= |alphabet| && Known(t, alphabet, lo, mid) && Known(t, alphabet, mid, hi)
    ensures Known(t, alphabet, lo, hi)
  {
  }

  lemma Completed(t: seq<int>, alphabet: seq<Byte>)
    requires Partial(t, alphabet) && |t| == 256 && |alphabet| == 64 && Known(t, alphabet, 0, 64)
    ensures IsTable(t[PAD := 0], alphabet)
  {
  }

  method SetEntry(table: array<int>, alphabet: seq<Byte>, k: nat)
    requires table.Length == 256 && |alphabet| == 64 && k < 64 && Partial(table[..], alphabet)
    modifies table
    ensures Partial(table[..], alphabet) && table[alphabet[k]] == k
    ensures forall lo: nat, hi: nat :: hi <= 64 && Known(old(table[..]), alphabet, lo, hi) ==>
            Known(table[..], alphabet, lo, hi)
  {
    table[alphabet[k]] := k;
  }

  ghost predicate Known(table: seq<int>, alphabet: seq<Byte>, lo: nat, hi: nat)
    requires |table| == 256 && hi <= |alphabet|
  {
    forall j :: lo <= j < hi ==> table[alphabet[j]] >= 0
  }

  ghost predicate Partial(table: seq<int>, alphabet: seq<Byte>) {
    && |table| == 256 && |alphabet| == 64
    && (forall c :: 0 <= c < 256 ==> -1 <= table[c] < 64)
    && (forall c :: 0 <= c < 256 && table[c] >= 0 ==> alphabet[table[c]] == c)
  }

  /** What a buffer holds after as much of an encoding as it takes. */
  function Overwritten(was: seq<Byte>, all: seq<Byte>): seq<Byte> {
    if |all| <= |was| then all + was[|all|..] else all[..|was|]
  }

  /** Encode into the caller's buffer, whose size is a multiple of four and where groups that do not fit
      are dropped, or into a new one of the size of the encoding. */
  method Encode(alphabet: seq<Byte>, data: seq<Byte>, own: array?<Byte>) returns (buf: array<Byte>)
    requires |alphabet| == 64 && (own != null ==> own.Length % 4 == 0)
    modifies own
    ensures own == null ==> fresh(buf) && buf[..] == Encoded(alphabet, data)
    ensures own != null ==> buf == own && buf[..] == Overwritten(old(own[..]), Encoded(alphabet, data))
  {
    hide Encoded;
    if own != null {
      buf := own;
    } else {
      EncodedLengthIs(|data|);
      buf := new Byte[4 * ((|data| + 2) / 3)](_ => 0);
    }
    ghost var was, all := buf[..], Encoded(alphabet, data);
    EncodeInto(alphabet, data, buf);
    assert |all| == |was| ==> all + was[|all|..] == all;
  }

  method EncodeInto(alphabet: seq<Byte>, data: seq<Byte>, buf: array<Byte>)
    requires |alphabet| == 64 && buf.Length % 4 == 0
    modifies buf
    ensures buf[..] == Overwritten(old(buf[..]), Encoded(alphabet, data))
  {
    hide Encoded, EncodeGroup;
    var blen := buf.Length;
    ghost var all, was := Encoded(alphabet, data), buf[..];
    var i, j := 0, 0;
    assert data[0..] == data && all[0..] == all;
    EncodedNone(alphabet);
    while i < |data| && j < blen
      invariant 0 <= i <= |data| && 0 <= j <= blen && j % 4 == 0
      invariant j <= |all| && buf[..j] == all[..j] && buf[j..] == was[j..] && all[j..] == Encoded(alphabet, data[i..])
    {
      var remaining := data[i..];
      var group := EncodeGroup(alphabet, remaining);
      EncodedSplits(alphabet, data, i, j);
      ghost var end := was[j + 4..];
      assert buf[j + 4..] == end by {
        assert buf[j..][4..] == buf[j + 4..] && was[j..][4..] == was[j + 4..];
      }
      buf[j], buf[j + 1], buf[j + 2], buf[j + 3] := group[0], group[1], group[2], group[3];
      assert buf[j + 4..] == end;
      assert buf[..j + 4] == all[..j] + group;
      i := if |remaining| < 3 then |data| else i + 3;
      j := j + 4;
    }
    EncodeEnds(buf[..], was, all, j, i < |data|);
  }

  lemma EncodeEnds(now: seq<Byte>, was: seq<Byte>, all: seq<Byte>, j: nat, more: bool)
    requires |now| == |was| && j <= |now| && j <= |all| && now[..j] == all[..j] && now[j..] == was[j..]
    requires if more then j == |now| else j == |all|
    ensures now == Overwritten(was, all)
  {
    assert now == now[..j] + now[j..];
  }

  lemma EncodedNone(alphabet: seq<Byte>)
    requires |alphabet| == 64
    ensures Encoded(alphabet, []) == []
  {
  }

  /** The next four characters of the encoding are those of the next group. */
  lemma EncodedSplits(alphabet: seq<Byte>, data: seq<Byte>, i: nat, j: nat)
    requires |alphabet| == 64 && i < |data|
    requires var all := Encoded(alphabet, data); j <= |all| && all[j..] == Encoded(alphabet, data[i..])
    ensures var all := Encoded(alphabet, data);
            && j + 4 <= |all| && all[..j + 4] == all[..j] + EncodeGroup(alphabet, data[i..])
            && all[j + 4..] == Encoded(alphabet, data[if |data| - i < 3 then |data| else i + 3..])
  {
    var all := Encoded(alphabet, data);
    var rest := data[i..];
    var tail := if |rest| <= 3 then [] else Encoded(alphabet, rest[3..]);
    assert all[j..] == EncodeGroup(alphabet, rest) + tail;
    assert all[j..][4..] == all[j + 4..] == tail;
    assert all[j..][..4] == all[j..j + 4] == EncodeGroup(alphabet, rest);
    if |rest| > 3 {
      assert rest[3..] == data[i + 3..];
    }
  }

  lemma Append(a: seq<Byte>, b: seq<Byte>, c: seq<Byte>)
    ensures a + b + c == a + (b + c) && b + [] == b
  {
  }

  lemma Parts(all: seq<Byte>, a: seq<Byte>, b: seq<Byte>)
    requires all == a + b
    ensures all[..|a|] == a && all[|a|..] == b
  {
  }

  class Converter {
    const alphabet: seq<Byte>
    var table: array?<int>
    var group: array<nat>
    var groupNext: nat
    var padding: nat
    var afterPadding: bool
    var errored: nat

    ghost predicate Valid()
      reads this, table, group
    {
      && |alphabet| == 64
      && group.Length == 4 && groupNext <= 4
      && (table != null ==> IsTable(table[..], alphabet))
    }

    ghost function State(): Decoder
      requires Valid()
      reads this, table, group
    {
      Decoder(group[..groupNext], padding, afterPadding, errored)
    }

    constructor (a: seq<Byte>)
      requires |a| == 0 || |a| == 64
      ensures Valid() && fresh(group) && table == null && State() == Fresh()
      ensures alphabet == if |a| == 0 then DEFAULT_ALPHABET else a
    {
      alphabet := if |a| == 0 then DEFAULT_ALPHABET else a;
      table := null;
      group := new nat[4](_ => 0);
      groupNext, padding, afterPadding, errored := 0, 0, false, 0;
    }

    method EnsureTable()
      requires Valid()
      modifies this`table
      ensures Valid() && table != null && State() == old(State())
      ensures if old(table) != null then table == old(table) else fresh(table)
    {
      if table == null {
        table := InitTable(alphabet);
      }
    }

    /** Process a full group, unless its bytes do not fit into `room`. */
    method FlushGroup(buf: array<Byte>, at: nat, room: nat) returns (fits: bool, count: nat)
      requires Valid() && groupNext == 4 && at + room <= buf.Length
      modifies this`groupNext, this`padding, this`afterPadding, this`errored, buf
      ensures Valid()
      ensures fits == (old(afterPadding) || Octets(old(State())) <= room)
      ensures fits ==> State() == Flushed(old(State())) && count <= room
      ensures if fits then groupNext == 0 else State() == old(State()) && count == 0 && groupNext == 4
      ensures buf[..at + count] == old(buf[..at]) + if fits then Bytes(old(State())) else []
    {
      count := 0;
      if afterPadding {
        errored := errored + 1;
        groupNext := 0;
        return true, 0;
      }
      var numOctets := 3 - padding;
      if numOctets > room {
        return false, 0;
      }
      var bit32 := Join(group[..]);
      assert group[..4] == group[..];
      if numOctets >= 1 {
        buf[at] := bit32 / 0x10000 % 256;
        count := 1;
      }
      if numOctets >= 2 {
        buf[at + 1] := bit32 / 0x100 % 256;
        count := 2;
      }
      if numOctets >= 3 {
        buf[at + 2] := bit32 % 256;
        count := 3;
      }
      fits := true;
      if padding > 0 {
        afterPadding := true;
      }
      groupNext, padding := 0, 0;
    }

    method ReadChar(c: Byte)
      requires Valid() && table != null && groupNext < 4
      modifies this`groupNext, this`padding, this`errored, group
      ensures Valid() && State() == Read(table[..], old(State()), c)
    {
      if c == PAD {
        padding := padding + 1;
      }
      var k := table[c];
      if k >= 0 {
        group[groupNext] := k;
        groupNext := groupNext + 1;
      } else {
        errored := errored + 1;
      }
    }

    /** One turn of the loop: a full group is flushed, or a character read, or there is nothing to do. */
    method Turn(data: seq<Byte>, dlen: nat, buf: array<Byte>, at: nat, room: nat)
        returns (stop: bool, took: nat, count: nat)
      requires Valid() && table != null && dlen <= |data| && at + room <= buf.Length
      modifies this`groupNext, this`padding, this`afterPadding, this`errored, group, buf
      ensures Valid() && took <= 1 && count <= room
      ensures stop == if old(groupNext) == 4 then !old(afterPadding) && Octets(old(State())) > room else dlen == |data|
      ensures stop ==> State() == old(State()) && buf[..at] == old(buf[..at])
      ensures !stop && old(groupNext) == 4 ==>
                took == 0 && State() == Flushed(old(State())) && groupNext == 0 &&
                    buf[..at + count] == old(buf[..at]) + Bytes(old(State()))
      ensures !stop && old(groupNext) != 4 ==>
                && took == 1 && count == 0 && dlen < |data| && State() == Read(table[..], old(State()), data[dlen])
                && buf[..at] == old(buf[..at])
    {
      hide Bytes, Flushed, Read, IsTable;
      stop, took, count := false, 0, 0;
      if groupNext == 4 {
        var fits;
        fits, count := FlushGroup(buf, at, room);
        stop := !fits;
        assert !fits ==> old(buf[..at]) + [] == old(buf[..at]);
      } else if dlen >= |data| {
        stop := true;
      } else {
        ReadChar(data[dlen]);
        took := 1;
      }
    }

    /** Decode into buf[start..start + blen]; reports how much input was consumed and how many bytes
        were written. */
    method Decode(data: seq<Byte>, buf: array<Byte>, start: nat, blen: nat) returns (dlen: nat, written: nat)
      requires Valid() && start + blen <= buf.Length
      modifies this`table, this`groupNext, this`padding, this`afterPadding, this`errored, group, buf
      ensures Valid() && table != null && (if old(table) != null then table == old(table) else fresh(table))
      ensures buf[..start] == old(buf[..start])
      ensures start + written <= buf.Length
      ensures (State(), dlen, buf[start..start + written]) == Call(table[..], old(State()), data, blen)
      ensures dlen <= |data|
      ensures var legal := Legal(alphabet, data[..dlen]);
              errored == old(errored) + (dlen - |legal|) +
                         Dropped(old(afterPadding), old(padding) > 0, old(groupNext), legal)
    {
      hide Call, Bytes, Flushed, Read, IsTable, Progress, Legal, Dropped;
      EnsureTable();
      ghost var d0, t := State(), table[..];
      CallErrors(t, alphabet, d0, data, blen);
      dlen, written := 0, 0;
      ghost var before, done: seq<Byte> := buf[..start], [];
      ProgressStarts(t, d0, data, blen);
      while true
        invariant Valid() && table != null && table[..] == t &&
                  (if old(table) != null then table == old(table) else fresh(table))
        invariant dlen <= |data| && written == |done| <= blen
        invariant buf[..start + written] == before + done
        invariant Progress(t, d0, data, blen, State(), dlen, done)
        decreases |data| - dlen, groupNext
      {
        ghost var d := State();
        ProgressTurn(t, d0, data, blen, d, dlen, done);
        var stop, took, count := Turn(data, dlen, buf, start + written, blen - written);
        if stop {
          break;
        }
        ghost var more := if took == 0 then Bytes(d) else [];
        Append(before, done, more);
        dlen, written := dlen + took, written + count;
        done := done + more;
      }
      Parts(buf[..start + written], before, done);
      assert buf[..start + written][..start] == buf[..start] &&
             buf[..start + written][start..] == buf[start..start + written];
    }

    /** Decode with a buffer sized by the converter itself: all input is consumed, and a byte is left. */
    method DecodeAll(data: seq<Byte>) returns (buf: array<Byte>, written: nat)
      requires Valid()
      modifies this`table, this`groupNext, this`padding, this`afterPadding, this`errored, group
      ensures Valid() && table != null && (if old(table) != null then table == old(table) else fresh(table))
      ensures fresh(buf) && written < buf.Length
      ensures (State(), buf[..written]) == Decoded(table[..], old(State()), data)
      ensures var legal := Legal(alphabet, data);
              errored == old(errored) + (|data| - |legal|) +
                         Dropped(old(afterPadding), old(padding) > 0, old(groupNext), legal)
    {
      hide Call, Decoded, IsTable, Legal, Dropped;
      var blen := (|data| + groupNext + 3) / 4 * 3 + 1;
      buf := new Byte[blen](_ => 0);
      ghost var d0 := State();
      var dlen;
      dlen, written := Decode(data, buf, 0, blen);
      RoomSuffices(table[..], d0, data, blen);
      RoomSuffices(table[..], d0, data, blen - 1);
      assert buf[0..written] == buf[..written];
      assert data[..dlen] == data;
    }

    /** Fill an incomplete group up with '=', as far as the buffer allows. */
    method Done(buf: array<Byte>, start: nat, blen: nat) returns (r: int, written: nat)
      requires Valid() && start + blen <= buf.Length
      modifies this`table, this`groupNext, this`padding, this`afterPadding, this`errored, group, buf
      ensures Valid() && start + written <= buf.Length
      ensures r == (if old(groupNext) != 0 then -1 else 0)
      ensures if old(table) != null then table == old(table) else table != null ==> fresh(table)
      ensures buf[..start] == old(buf[..start])
      ensures old(groupNext) == 0 ==> State() == old(State()) && written == 0
      ensures old(groupNext) != 0 ==>
                && table != null
                && var c := Call(table[..], old(State()), Pads(4 - old(groupNext)), blen);
                   State() == c.0 && buf[start..start + written] == c.2
    {
      if groupNext != 0 {
        var dlen;
        dlen, written := Decode(Pads(4 - groupNext), buf, start, blen);
        return -1, written;
      }
      return 0, 0;
    }
  }

  /** encode_base64: None for a bad alphabet. */
  method EncodeBase64(s: seq<Byte>, a: Option<seq<Byte>>) returns (r: Option<seq<Byte>>)
    ensures r.None? <==> a.Some? && |a.value| != 0 && |a.value| != 64
    ensures r.Some? ==> r.value == Encoded(if a.None? || |a.value| == 0 then DEFAULT_ALPHABET else a.value, s)
  {
    if a.Some? && |a.value| != 0 && |a.value| != 64 {
      return None;
    }
    var enc := new Converter(if a.Some? then a.value else []);
    var outbuf := Encode(enc.alphabet, s, null);
    r := Some(outbuf[..]);
  }

  /** decode_base64: None for a bad alphabet or a decoding error; missing padding is supplied. */
  method DecodeBase64(s: seq<Byte>, a: Option<seq<Byte>>) returns (r: Option<seq<Byte>>)
    ensures a.Some? && |a.value| != 0 && |a.value| != 64 ==> r == None
    ensures a.None? || |a.value| == 0 || |a.value| == 64 ==>
              var alphabet := if a.None? || |a.value| == 0 then DEFAULT_ALPHABET else a.value;
              && (exists t :: IsTable(t, alphabet) && r == WholeDecode(t, s))
              && (r.None? <==> |Legal(alphabet, s)| < |s| || Overlong(Legal(alphabet, s)))
              && (r.Some? ==> Spells(alphabet, Padded(s), r.value))
              && (forall data :: IsAlphabet(alphabet) && (s == Encoded(alphabet, data) || s == Stripped(alphabet, data))
                                 ==> r == Some(data))
  {
    hide Call, Decoded, IsTable, Encoded, Stripped, Legal, Dropped, Overlong, Spells, Padded;
    if a.Some? && |a.value| != 0 && |a.value| != 64 {
      return None;
    }
    var bufLen := (|s| + 3) / 4 * 3 + 1;
    var rbuf := new Byte[bufLen](_ => 0);
    var dec := new Converter(if a.Some? then a.value else []);
    ghost var alphabet := dec.alphabet;
    var dlen, rlen := dec.Decode(s, rbuf, 0, bufLen);
    ghost var t := dec.table[..];
    assert IsTable(t, alphabet);
    RoomSuffices(t, Fresh(), s, bufLen);
    TerminatorFits(t, s);
    assert rbuf[0..rlen] == rbuf[..rlen];
    if dec.errored > 0 {
      r := None;
    } else {
      ghost var d1 := dec.State();
      var _, rlen2 := dec.Done(rbuf, rlen, bufLen - rlen);
      if d1.group != [] {
        RoomSuffices(t, d1, Pads(4 - |d1.group|), bufLen - rlen);
      }
      assert rbuf[rlen..rlen + rlen2] == Finished(t, d1).1;
      assert rbuf[..rlen + rlen2] == rbuf[..rlen] + rbuf[rlen..rlen + rlen2];
      rlen := rlen + rlen2;
      rbuf[rlen] := 0;
      r := Some(rbuf[..rlen]);
    }
    assert r == WholeDecode(t, s);
    WholeDecodeIs(t, alphabet, s);
    forall data | IsAlphabet(alphabet) && (s == Encoded(alphabet, data) || s == Stripped(alphabet, data))
      ensures r == Some(data)
    {
      WholeRoundTrip(t, alphabet, data);
    }
  }

  /** Decode and Done on a whole string. */
  function WholeDecode(t: seq<int>, s: seq<Byte>): Option<seq<Byte>>
    requires |t| == 256
  {
    GroupsBound(t, Fresh(), s);
    var (d1, out1) := Decoded(t, Fresh(), s);
    if d1.errored > 0 then None else Some(out1 + Finished(t, d1).1)
  }

  /** What a whole string decodes to: nothing if a character is illegal or a group follows a padded one, and
      otherwise what it spells when filled up with '='. */
  lemma WholeDecodeIs(t: seq<int>, alphabet: seq<Byte>, s: seq<Byte>)
    requires IsTable(t, alphabet)
    ensures |alphabet| == 64
    ensures WholeDecode(t, s).None? <==> |Legal(alphabet, s)| < |s| || Overlong(Legal(alphabet, s))
    ensures WholeDecode(t, s).Some? ==> Spells(alphabet, Padded(s), WholeDecode(t, s).value)
  {
    assert |alphabet| == 64;
    hide Decoded, IsTable, Spells, Overlong;
    ErrorsAre(t, alphabet, Fresh(), s);
    DropsWhen(Legal(alphabet, s));
    AllLegal(t, alphabet, s);
    if |Legal(alphabet, s)| == |s| {
      FinishedSpells(t, alphabet, s);
    }
  }

  lemma WholeRoundTrip(t: seq<int>, alphabet: seq<Byte>, data: seq<Byte>)
    requires IsAlphabet(alphabet) && IsTable(t, alphabet)
    ensures WholeDecode(t, Encoded(alphabet, data)) == Some(data)
    ensures WholeDecode(t, Stripped(alphabet, data)) == Some(data)
  {
    hide Decoded, Encoded, Stripped, IsTable;
    assert Fresh() == Between(0);
    RoundTrip(t, alphabet, data, 0);
    assert data + [] == data;
    UnpaddedRoundTrip(t, alphabet, data, 0);
    StrippedLegal(t, alphabet, data);
  }

  /** Nothing in a stripped encoding is an error. */
  lemma StrippedLegal(t: seq<int>, alphabet: seq<Byte>, data: seq<Byte>)
    requires IsAlphabet(alphabet) && IsTable(t, alphabet)
    ensures Decoded(t, Fresh(), Stripped(alphabet, data)).0.errored == 0
  {
    hide Decoded, Encoded, Stripped;
    var stripped, pads := Stripped(alphabet, data), Pads(PadCount(|data|));
    RoundTrip(t, alphabet, data, 0);
    EncodedEnds(t, alphabet, data);
    DecodedConcat(t, Between(0), stripped, pads);
    var d1 := Decoded(t, Between(0), stripped).0;
    ErrorsGrow(t, d1, pads);
  }

  lemma {:induction false} ErrorsGrow(t: seq<int>, d: Decoder, data: seq<Byte>)
    requires |t| == 256
    ensures Decoded(t, d, data).0.errored >= d.errored
    decreases |data|
  {
    if data != [] {
      ErrorsGrow(t, Read(t, Drained(d).0, data[0]), data[1..]);
    }
  }
}

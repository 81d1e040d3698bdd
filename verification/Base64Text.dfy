/** What Base64 text means, group by group as in section 4 of RFC 4648, and what in a text is an error: stated
    without the transducer, and proved of it. */
module Base64Text {
  import opened Octet
  import opened Base64Codec

  // ---------------------------------------------------------------- four characters, three bytes

  /** Four 6-bit numbers, and three bytes, as one number of 24 bits. */
  function Number(v: seq<nat>): nat
    requires |v| == 4
  {
    v[0] * 0x40000 + v[1] * 0x1000 + v[2] * 0x40 + v[3]
  }

  function Octal(b: seq<Byte>): nat
    requires |b| == 3
  {
    b[0] as int * 0x10000 + b[1] as int * 0x100 + b[2] as int
  }

  /** The numbers that four characters stand for; '=' stands for 0. */
  ghost predicate Reads(alphabet: seq<Byte>, g: seq<Byte>, v: seq<nat>)
    requires |alphabet| == 64 && |g| == 4
  {
    |v| == 4 && forall i :: 0 <= i < 4 ==> v[i] < 64 && if g[i] == PAD then v[i] == 0 else alphabet[v[i]] == g[i]
  }

  /** Three bytes with the bits of four characters. */
  ghost predicate Word(alphabet: seq<Byte>, g: seq<Byte>, b: seq<Byte>)
    ensures Word(alphabet, g, b) ==> |b| == 3
  {
    |alphabet| == 64 && |g| == 4 && |b| == 3 && exists v :: Reads(alphabet, g, v) && Number(v) == Octal(b)
  }

  /** How many bytes a group stands for: three, less one for each '='. */
  function Kept(g: seq<Byte>): nat
    requires |g| == 4
    ensures Kept(g) <= 3 && (PAD !in g ==> Kept(g) == 3)
  {
    var pads := (if g[0] == PAD then 1 else 0) + (if g[1] == PAD then 1 else 0) +
        (if g[2] == PAD then 1 else 0) + (if g[3] == PAD then 1 else 0);
    if pads >= 3 then 0 else 3 - pads
  }

  /** The bytes a text of whole groups stands for: those of its groups up to the first with padding. */
  ghost predicate Spells(alphabet: seq<Byte>, text: seq<Byte>, data: seq<Byte>)
    requires |alphabet| == 64
    decreases |text|
  {
    if |text| < 4 then data == []
    else
      exists b :: Word(alphabet, text[..4], b) &&
        if PAD in text[..4] then data == b[..Kept(text[..4])]
        else |data| >= 3 && data[..3] == b && Spells(alphabet, text[4..], data[3..])
  }

  // ---------------------------------------------------------------- encoding

  /** The bytes of the p-th group, the missing ones zero. */
  function Filled(data: seq<Byte>, p: nat): (b: seq<Byte>)
    requires 3 * p < |data|
    ensures |b| == 3
  {
    seq(3, i requires 0 <= i < 3 => if 3 * p + i < |data| then data[3 * p + i] else 0)
  }

  /** The p-th four characters of a text carry the bits of the p-th three bytes, v as four numbers; one that
      carries no bit of a byte that is there is '='. */
  ghost predicate Carries(alphabet: seq<Byte>, text: seq<Byte>, data: seq<Byte>, p: nat, v: seq<nat>)
    requires |alphabet| == 64
  {
    && 3 * p < |data| && 4 * (p + 1) <= |text|
    && |v| == 4 && (forall i :: 0 <= i < 4 ==> v[i] < 64) && Number(v) == Octal(Filled(data, p))
    && forall i :: 0 <= i < 4 ==> text[4 * p..][i] == if 3 * p + i <= |data| then alphabet[v[i]] else PAD
  }

  /** So it is of every group of an encoding, and there is no more to it. */
  lemma {:induction false} EncodedGroup(alphabet: seq<Byte>, data: seq<Byte>, p: nat) returns (v: seq<nat>)
    requires |alphabet| == 64 && 3 * p < |data|
    ensures |Encoded(alphabet, data)| == 4 * ((|data| + 2) / 3)
    ensures Carries(alphabet, Encoded(alphabet, data), data, p, v)
    decreases p
  {
    hide EncodeGroup, Carries;
    EncodedLengthIs(|data|);
    var head := EncodeGroup(alphabet, data);
    var tail := if |data| <= 3 then [] else Encoded(alphabet, data[3..]);
    assert Encoded(alphabet, data) == head + tail;
    if p == 0 {
      v := FirstGroup(alphabet, data);
      CarriesFirst(alphabet, head, tail, data, v);
    } else {
      v := EncodedGroup(alphabet, data[3..], p - 1);
      CarriesNext(alphabet, head, tail, data, p, v);
    }
  }

  lemma CarriesFirst(alphabet: seq<Byte>, head: seq<Byte>, tail: seq<Byte>, data: seq<Byte>, v: seq<nat>)
    requires |alphabet| == 64 && |head| == 4 && data != []
    requires |v| == 4 && (forall i :: 0 <= i < 4 ==> v[i] < 64) && Number(v) == Octal(Filled(data, 0))
    requires forall i :: 0 <= i < 4 ==> head[i] == if i <= |data| then alphabet[v[i]] else PAD
    ensures Carries(alphabet, head + tail, data, 0, v)
  {
    hide Number, Octal;
    assert (head + tail)[4 * 0..] == head + tail;
  }

  lemma CarriesNext(alphabet: seq<Byte>, head: seq<Byte>, tail: seq<Byte>, data: seq<Byte>, p: nat, v: seq<nat>)
    requires |alphabet| == 64 && |head| == 4 && 0 < p && 3 < |data| && Carries(alphabet, tail, data[3..], p - 1, v)
    ensures Carries(alphabet, head + tail, data, p, v)
  {
    hide Number, Octal;
    var rest := data[3..];
    assert 3 * (p - 1) < |rest| && 4 * p <= |tail|;
    assert Filled(rest, p - 1) == Filled(data, p);
    assert Number(v) == Octal(Filled(data, p));
    assert (head + tail)[4 * p..] == tail[4 * (p - 1)..];
  }

  lemma FirstGroup(alphabet: seq<Byte>, data: seq<Byte>) returns (v: seq<nat>)
    requires |alphabet| == 64 && data != []
    ensures |v| == 4 && (forall i :: 0 <= i < 4 ==> v[i] < 64) && Number(v) == Octal(Filled(data, 0))
    ensures forall i :: 0 <= i < 4 ==> EncodeGroup(alphabet, data)[i] == if i <= |data| then alphabet[v[i]] else PAD
  {
    var b := Filled(data, 0);
    var x := Octal(b);
    v := [x / 0x40000 % 64, x / 0x1000 % 64, x / 0x40 % 64, x % 64];
    OctalFits(b);
    Sextets(x);
    var bit32: nat := (data[0] as int) * 0x10000 + (if |data| > 1 then (data[1] as int) * 0x100 else 0) +
        (if |data| > 2 then data[2] else 0);
    assert x == bit32;
    hide Octal;
  }

  lemma OctalFits(b: seq<Byte>)
    requires |b| == 3
    ensures Octal(b) < 0x1000000
  {
  }

  // ---------------------------------------------------------------- errors

  /** The characters of a text that are '=' or in the alphabet. */
  function Legal(alphabet: seq<Byte>, s: seq<Byte>): (r: seq<Byte>)
    ensures |r| <= |s|
  {
    if s == [] then []
    else (if s[0] == PAD || s[0] in alphabet then [s[0]] else []) + Legal(alphabet, s[1..])
  }

  /** How many groups are dropped because one before them was padded. k characters of the first group have been
      read before, '=' among them if `padded`. */
  function Dropped(after: bool, padded: bool, k: nat, legal: seq<Byte>): nat
    requires k <= 4
    decreases |legal|, k
  {
    if k + |legal| < 4 then 0
    else (if after then 1 else 0) + Dropped(after || padded || PAD in legal[..4 - k], false, 0, legal[4 - k..])
  }

  lemma DroppedNext(after: bool, padded: bool, k: nat, c: Byte, legal: seq<Byte>)
    requires k < 4
    ensures Dropped(after, padded, k, [c] + legal) == Dropped(after, padded || c == PAD, k + 1, legal)
  {
    var all := [c] + legal;
    if k + |all| >= 4 {
      assert all[4 - k..] == legal[3 - k..];
      assert all[..4 - k] == [c] + legal[..3 - k];
    }
  }

  lemma LegalIs(table: seq<int>, alphabet: seq<Byte>, c: Byte)
    requires IsTable(table, alphabet)
    ensures table[c] >= 0 <==> c == PAD || c in alphabet
  {
    if c in alphabet {
      var i :| 0 <= i < 64 && alphabet[i] == c;
    }
  }

  /** The error count: illegal characters, and groups dropped. */
  lemma {:induction false} ErrorsAre(table: seq<int>, alphabet: seq<Byte>, d: Decoder, s: seq<Byte>)
    requires IsTable(table, alphabet) && |d.group| <= 4
    ensures var legal := Legal(alphabet, s);
            Decoded(table, d, s).0.errored ==
            d.errored + (|s| - |legal|) + Dropped(d.after, d.padding > 0, |d.group|, legal)
    decreases |s|
  {
    hide IsTable, Bytes;
    var d1, legal := Drained(d).0, Legal(alphabet, s);
    assert d1.errored + Dropped(d1.after, d1.padding > 0, |d1.group|, legal) ==
           d.errored + Dropped(d.after, d.padding > 0, |d.group|, legal) by {
      FlushDrops(d, legal);
    }
    if s != [] {
      LegalIs(table, alphabet, s[0]);
      var d2, rest := Read(table, d1, s[0]), Legal(alphabet, s[1..]);
      ErrorsAre(table, alphabet, d2, s[1..]);
      if table[s[0]] >= 0 {
        DroppedNext(d1.after, d1.padding > 0, |d1.group|, s[0], rest);
      } else {
        assert [] + rest == rest;
      }
    }
  }

  lemma FlushDrops(d: Decoder, legal: seq<Byte>)
    requires |d.group| <= 4
    ensures var d1 := Drained(d).0;
            d1.errored + Dropped(d1.after, d1.padding > 0, |d1.group|, legal) ==
            d.errored + Dropped(d.after, d.padding > 0, |d.group|, legal)
  {
    hide Bytes;
    if |d.group| == 4 {
      assert legal[..0] == [] && legal[0..] == legal;
      if d.after {
        AfterDrops(d.padding > 0, 0, legal);
      }
    }
  }

  /** After a padded group everything is dropped. */
  lemma AfterDrops(padded: bool, k: nat, legal: seq<Byte>)
    requires k <= 4
    ensures Dropped(true, padded, k, legal) == Dropped(true, false, k, legal)
  {
  }

  /** The p-th group is there and has padding. */
  ghost predicate PaddedAt(legal: seq<Byte>, p: nat) { 4 * p + 4 <= |legal| && PAD in legal[4 * p..4 * p + 4] }

  /** A group follows one with padding. */
  ghost predicate Overlong(legal: seq<Byte>) { exists p: nat :: PaddedAt(legal, p) && 4 * p + 8 <= |legal| }

  lemma {:induction false} DropsWhen(legal: seq<Byte>)
    ensures Dropped(false, false, 0, legal) > 0 <==> Overlong(legal)
    decreases |legal|
  {
    if |legal| >= 4 {
      var rest := legal[4..];
      assert legal[4 * 0..4 * 0 + 4] == legal[..4];
      if PAD in legal[..4] {
        assert PaddedAt(legal, 0);
        assert Dropped(false, false, 0, legal) == Dropped(true, false, 0, rest);
      } else {
        assert !PaddedAt(legal, 0);
        DropsWhen(rest);
        forall p: nat ensures PaddedAt(rest, p) <==> PaddedAt(legal, p + 1) {
          if 4 * p + 4 <= |rest| {
            assert legal[4 * (p + 1)..4 * (p + 1) + 4] == rest[4 * p..4 * p + 4];
          }
        }
        if Overlong(rest) {
          var p: nat :| PaddedAt(rest, p) && 4 * p + 8 <= |rest|;
          assert PaddedAt(legal, p + 1);
        }
        if Overlong(legal) {
          var p: nat :| PaddedAt(legal, p) && 4 * p + 8 <= |legal|;
          assert p > 0;
          assert PaddedAt(rest, p - 1);
        }
      }
    }
  }

  /** A call with limited room has decoded what it has taken, but for a full group it could not write. */
  lemma {:induction false} CallTakes(table: seq<int>, d: Decoder, data: seq<Byte>, room: int)
    requires |table| == 256
    ensures var (d', n, out) := Call(table, d, data, room);
            Decoded(table, d, data[..n]) == (Drained(d').0, out + Drained(d').1)
    decreases |data|, |d.group|
  {
    hide Read, Flushed, Bytes;
    var (d', n, out) := Call(table, d, data, room);
    DrainFirst(table, d, data[..n]);
    if |d.group| == 4 {
      if d.after {
        FlushedIs(d);
        CallTakes(table, Flushed(d), data, room);
        assert [] + (out + Drained(d').1) == out + Drained(d').1;
      } else if Octets(d) > room {
        assert data[..n] == [];
        assert Decoded(table, d, []) == Drained(d);
        assert [] + Drained(d').1 == Drained(d').1;
      } else {
        FlushedIs(d);
        CallTakes(table, Flushed(d), data, room - |Bytes(d)|);
        var rest := Call(table, Flushed(d), data, room - |Bytes(d)|).2;
        assert Bytes(d) + (rest + Drained(d').1) == (Bytes(d) + rest) + Drained(d').1;
      }
    } else if data == [] {
      assert data[..n] == [];
      ReadNext(table, d, []);
    } else {
      CallTakes(table, Read(table, d, data[0]), data[1..], room);
      assert data[..n][1..] == data[1..][..n - 1] && data[..n][0] == data[0];
      ReadNext(table, d, data[..n]);
    }
  }

  lemma FlushedIs(d: Decoder)
    requires |d.group| == 4
    ensures Flushed(d).group == [] && (d.after ==> Bytes(d) == [])
  {
  }

  /** What the error count of a call grows by. */
  lemma CallErrors(table: seq<int>, alphabet: seq<Byte>, d: Decoder, data: seq<Byte>, room: int)
    requires IsTable(table, alphabet) && |d.group| <= 4
    ensures var (d', n, out) := Call(table, d, data, room);
            var legal := Legal(alphabet, data[..n]);
            d'.errored == d.errored + (n - |legal|) + Dropped(d.after, d.padding > 0, |d.group|, legal)
  {
    hide IsTable, Call, Decoded, Bytes;
    var (d', n, out) := Call(table, d, data, room);
    CallIsPartOf(table, d, data, room);
    CallTakes(table, d, data, room);
    ErrorsAre(table, alphabet, d, data[..n]);
  }

  // ---------------------------------------------------------------- what is decoded

  lemma {:induction false} AfterSilent(table: seq<int>, d: Decoder, data: seq<Byte>)
    requires |table| == 256 && d.after
    ensures Decoded(table, d, data).1 == []
    decreases |data|
  {
    if data != [] {
      AfterSilent(table, Read(table, Drained(d).0, data[0]), data[1..]);
    }
  }

  /** The bytes of a full group have the bits of its characters. */
  lemma GroupWord(table: seq<int>, alphabet: seq<Byte>, c: seq<Byte>, d: Decoder)
    requires IsTable(table, alphabet) && |c| == 4 && |d.group| == 4 && !d.after
    requires forall i :: 0 <= i < 4 ==> 0 <= table[c[i]] == d.group[i]
    requires d.padding == (if c[0] == PAD then 1 else 0) + (if c[1] == PAD then 1 else 0) +
             (if c[2] == PAD then 1 else 0) + (if c[3] == PAD then 1 else 0)
    ensures exists b :: Word(alphabet, c, b) && Bytes(d) == b[..Kept(c)]
  {
    var x := Join(d.group);
    var b: seq<Byte> := [x / 0x10000 % 256, x / 0x100 % 256, x % 256];
    assert Reads(alphabet, c, d.group);
    JoinIs(d.group);
    ByteParts(x);
    assert Number(d.group) == Octal(b);
    assert Word(alphabet, c, b);
  }

  lemma JoinIs(v: seq<nat>)
    requires |v| == 4 && forall i :: 0 <= i < 4 ==> v[i] < 64
    ensures Join(v) == Number(v) < 0x1000000
  {
  }

  lemma ByteParts(x: nat)
    requires x < 0x1000000
    ensures x / 0x10000 % 256 * 0x10000 + x / 0x100 % 256 * 0x100 + x % 256 == x
  {
  }

  /** One group of four characters, and what follows it. */
  lemma SpellsGroup(alphabet: seq<Byte>, c: seq<Byte>, rest: seq<Byte>, b: seq<Byte>, out: seq<Byte>)
    requires |alphabet| == 64 && |c| == 4 && Word(alphabet, c, b)
    requires if PAD in c then out == [] else Spells(alphabet, rest, out)
    ensures Spells(alphabet, c + rest, b[..Kept(c)] + out)
  {
    hide Word;
    var text := c + rest;
    assert text[..4] == c && text[4..] == rest;
    if PAD in c {
      assert b[..Kept(c)] + [] == b[..Kept(c)];
    } else {
      assert b[..3] == b;
      assert (b + out)[..3] == b && (b + out)[3..] == out;
    }
  }

  /** Decoding a legal group and what follows it. */
  lemma GroupDecoded(table: seq<int>, alphabet: seq<Byte>, c: seq<Byte>, rest: seq<Byte>, e: nat) returns (b: seq<Byte>)
    requires IsTable(table, alphabet) && |c| == 4 && forall i :: 0 <= i < 4 ==> table[c[i]] >= 0
    ensures Word(alphabet, c, b)
    ensures Decoded(table, Between(e), c + rest).1 ==
            b[..Kept(c)] + if PAD in c then [] else Decoded(table, Between(e), rest).1
  {
    hide IsTable, Decoded, Bytes, Word, Kept;
    var g: seq<nat> := seq(4, i requires 0 <= i < 4 => table[c[i]]);
    var pads := (if c[0] == PAD then 1 else 0) + (if c[1] == PAD then 1 else 0) +
        (if c[2] == PAD then 1 else 0) + (if c[3] == PAD then 1 else 0);
    FourRead(table, e, c, rest, g, pads);
    var d := Decoder(g, pads, false, e);
    GroupWord(table, alphabet, c, d);
    b :| Word(alphabet, c, b) && Bytes(d) == b[..Kept(c)];
    assert pads > 0 <==> PAD in c;
    if PAD in c {
      AfterSilent(table, Flushed(d), rest);
    }
  }

  /** Legal text of n whole groups decodes to what it spells. */
  lemma {:induction false} DecodedSpells(table: seq<int>, alphabet: seq<Byte>, text: seq<Byte>, n: nat, e: nat)
    requires IsTable(table, alphabet) && |text| == 4 * n && forall i :: 0 <= i < |text| ==> table[text[i]] >= 0
    ensures Spells(alphabet, text, Decoded(table, Between(e), text).1)
    decreases n
  {
    assert |alphabet| == 64;
    if n == 0 {
      hide Decoded;
      ReadNext(table, Between(e), text);
    } else {
      hide IsTable, Decoded, Word, Kept, Spells, Between;
      var c, rest := text[..4], text[4..];
      assert text == c + rest && |rest| == 4 * (n - 1);
      var b := GroupDecoded(table, alphabet, c, rest, e);
      if PAD !in c {
        DecodedSpells(table, alphabet, rest, n - 1, e);
      }
      SpellsGroup(alphabet, c, rest, b, if PAD in c then [] else Decoded(table, Between(e), rest).1);
    }
  }

  /** A text filled up with '=' to whole groups. */
  function Padded(s: seq<Byte>): seq<Byte> {
    if |s| % 4 == 0 then s else s + Pads(4 - |s| % 4)
  }

  lemma PaddedLength(s: seq<Byte>) returns (n: nat)
    ensures |Padded(s)| == 4 * n
  {
    n := (|s| + 3) / 4;
  }

  /** What is left of a legal text after its whole groups. */
  lemma GroupLeft(table: seq<int>, s: seq<Byte>)
    requires |table| == 256 && forall i :: 0 <= i < |s| ==> table[s[i]] >= 0
    ensures |Decoded(table, Fresh(), s).0.group| == |s| % 4
  {
    hide Decoded, Groups;
    assert forall c :: c in s ==> table[c] >= 0;
    GroupsBound(table, Fresh(), s);
    GroupsExact(table, Fresh(), s);
    Remainder(Groups(table, Fresh(), s), |Decoded(table, Fresh(), s).0.group|, |s|);
  }

  lemma Remainder(k: nat, r: nat, n: nat)
    requires 4 * k + r == n && r < 4
    ensures r == n % 4
  {
  }

  /** Decoding a legal text, and Done: the padded text is decoded. */
  lemma FinishedIs(table: seq<int>, s: seq<Byte>)
    requires |table| == 256 && forall i :: 0 <= i < |s| ==> table[s[i]] >= 0
    ensures var (d, out) := Decoded(table, Fresh(), s);
            |d.group| < 4 && out + Finished(table, d).1 == Decoded(table, Fresh(), Padded(s)).1
  {
    hide Decoded, Pads, Fresh, Padded, Finished;
    GroupLeft(table, s);
    var (d, out) := Decoded(table, Fresh(), s);
    var k := |d.group|;
    PaddedCases(s, k);
    FinishedCases(table, d);
    if k == 0 {
      assert out + [] == out;
    } else {
      DecodedConcat(table, Fresh(), s, Pads(4 - k));
    }
  }

  lemma PaddedCases(s: seq<Byte>, k: nat)
    requires k == |s| % 4
    ensures k < 4 && Padded(s) == if k == 0 then s else s + Pads(4 - k)
  {
  }

  lemma FinishedCases(table: seq<int>, d: Decoder)
    requires |table| == 256 && |d.group| < 4
    ensures Finished(table, d) == if |d.group| == 0 then (d, []) else Decoded(table, d, Pads(4 - |d.group|))
  {
    hide Decoded, Pads;
  }

  lemma FinishedSpells(table: seq<int>, alphabet: seq<Byte>, s: seq<Byte>)
    requires IsTable(table, alphabet) && forall i :: 0 <= i < |s| ==> table[s[i]] >= 0
    ensures var (d, out) := Decoded(table, Fresh(), s);
            |d.group| < 4 && Spells(alphabet, Padded(s), out + Finished(table, d).1)
  {
    assert table[PAD] >= 0;
    hide Decoded, Spells, IsTable;
    assert Fresh() == Between(0);
    FinishedIs(table, s);
    var n := PaddedLength(s);
    PaddedLegal(table, s);
    DecodedSpells(table, alphabet, Padded(s), n, 0);
  }

  lemma PaddedLegal(table: seq<int>, s: seq<Byte>)
    requires |table| == 256 && table[PAD] >= 0 && forall i :: 0 <= i < |s| ==> table[s[i]] >= 0
    ensures forall i :: 0 <= i < |Padded(s)| ==> table[Padded(s)[i]] >= 0
  {
  }

  /** Nothing illegal in a text: it is its own legal part. */
  lemma {:induction false} AllLegal(table: seq<int>, alphabet: seq<Byte>, s: seq<Byte>)
    requires IsTable(table, alphabet)
    ensures |Legal(alphabet, s)| == |s| <==> forall i :: 0 <= i < |s| ==> table[s[i]] >= 0
    ensures |Legal(alphabet, s)| == |s| ==> Legal(alphabet, s) == s
  {
    hide IsTable;
    if s != [] {
      LegalIs(table, alphabet, s[0]);
      AllLegal(table, alphabet, s[1..]);
      assert s == [s[0]] + s[1..];
      if forall i :: 0 <= i < |s[1..]| ==> table[s[1..][i]] >= 0 {
        assert forall i :: 1 <= i < |s| ==> s[i] == s[1..][i - 1];
      }
    }
  }
}

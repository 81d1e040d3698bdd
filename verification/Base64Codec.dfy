/** Base64 as a stream transducer: encoding of whole strings, and decoding one character at a time
    with padding, errors and pending groups. */
module Base64Codec {
  import opened Octet

  const PAD: Byte := 61  // '='

  /** 64 distinct ASCII characters, none of them the padding character. */
  ghost predicate IsAlphabet(alphabet: seq<Byte>) {
    && |alphabet| == 64
    && (forall i :: 0 <= i < 64 ==> alphabet[i] < 128 && alphabet[i] != PAD)
    && (forall i, j :: 0 <= i < j < 64 ==> alphabet[i] != alphabet[j])
  }

  // ---------------------------------------------------------------- encoding

  /** Four characters for up to three bytes. */
  function EncodeGroup(alphabet: seq<Byte>, data: seq<Byte>): (r: seq<Byte>)
    requires |alphabet| == 64 && 1 <= |data|
    ensures |r| == 4
  {
    var bit32: nat := (data[0] as int) * 0x10000 + (if |data| > 1 then (data[1] as int) * 0x100 else 0) +
        (if |data| > 2 then data[2] else 0);
    [alphabet[bit32 / 0x40000 % 64],
     alphabet[bit32 / 0x1000 % 64],
     if |data| < 2 then PAD else alphabet[bit32 / 0x40 % 64],
     if |data| < 3 then PAD else alphabet[bit32 % 64]]
  }

  function EncodedLength(n: nat): nat {
    if n == 0 then 0 else if n <= 3 then 4 else 4 + EncodedLength(n - 3)
  }

  lemma {:induction false} EncodedLengthIs(n: nat)
    ensures EncodedLength(n) == 4 * ((n + 2) / 3)
  {
    if n > 3 {
      EncodedLengthIs(n - 3);
    }
  }

  function Encoded(alphabet: seq<Byte>, data: seq<Byte>): (r: seq<Byte>)
    requires |alphabet| == 64
    ensures |r| == EncodedLength(|data|)
  {
    if data == [] then []
    else EncodeGroup(alphabet, data) + if |data| <= 3 then [] else Encoded(alphabet, data[3..])
  }

  /** Number of '=' at the end of the encoding of n bytes. */
  function PadCount(n: nat): (p: nat)
    ensures p <= EncodedLength(n)
  {
    if n == 0 then 0 else if n <= 3 then 3 - n else PadCount(n - 3)
  }

  // ---------------------------------------------------------------- decoding table

  /** What a decoding table says about an alphabet. */
  ghost predicate IsTable(table: seq<int>, alphabet: seq<Byte>)
    ensures IsTable(table, alphabet) ==> |table| == 256
  {
    && |table| == 256 && |alphabet| == 64
    && table[PAD] == 0
    && (forall c :: 0 <= c < 256 && c != PAD ==> -1 <= table[c] < 64)
    && (forall c :: 0 <= c < 256 && c != PAD && table[c] >= 0 ==> alphabet[table[c]] == c)
    && (forall i :: 0 <= i < 64 && alphabet[i] != PAD ==> table[alphabet[i]] >= 0)
  }

  lemma TableInverts(table: seq<int>, alphabet: seq<Byte>, i: nat)
    requires IsTable(table, alphabet) && IsAlphabet(alphabet) && i < 64
    ensures table[alphabet[i]] == i
  {
  }

  // ---------------------------------------------------------------- decoding

  /** Decoder state: the group collected so far, '=' seen in it, whether a padded group has been
      completed, and the number of errors. */
  datatype Decoder = Decoder(group: seq<nat>, padding: nat, after: bool, errored: nat)

  function Fresh(): Decoder { Decoder([], 0, false, 0) }

  /** A pending group of four is processed: three bytes less one for each '=', or an error when a
      padded group came before. */
  function Octets(d: Decoder): int { if d.after then 0 else 3 - d.padding }

  /** Four 6-bit numbers as one 24-bit number. */
  function Join(g: seq<nat>): nat
    requires |g| == 4
  {
    g[0] % 64 * 0x40000 + g[1] % 64 * 0x1000 + g[2] % 64 * 0x40 + g[3] % 64
  }

  function Bytes(d: Decoder): (r: seq<Byte>)
    requires |d.group| == 4
    ensures |r| == if d.after || d.padding >= 3 then 0 else Octets(d)
  {
    var bit32 := Join(d.group);
    var all := [bit32 / 0x10000 % 256, bit32 / 0x100 % 256, bit32 % 256];
    if d.after || d.padding >= 3 then [] else all[..3 - d.padding]
  }

  function Flushed(d: Decoder): Decoder
    requires |d.group| == 4
  {
    if d.after then d.(group := [], errored := d.errored + 1)
    else Decoder([], 0, d.padding > 0, d.errored)
  }

  function Read(table: seq<int>, d: Decoder, c: Byte): Decoder
    requires |table| == 256
  {
    var padding := if c == PAD then d.padding + 1 else d.padding;
    if table[c] >= 0 then d.(group := d.group + [table[c]], padding := padding)
    else d.(padding := padding, errored := d.errored + 1)
  }

  /** State and output after a pending full group has been processed. */
  function Drained(d: Decoder): (Decoder, seq<Byte>) {
    if |d.group| == 4 then (Flushed(d), Bytes(d)) else (d, [])
  }

  /** State and output after all of `data`, with unlimited room. */
  function Decoded(table: seq<int>, d: Decoder, data: seq<Byte>): (r: (Decoder, seq<Byte>))
    requires |table| == 256
    decreases |data|
  {
    var (d1, out1) := Drained(d);
    if data == [] then (d1, out1)
    else
      var (d2, out2) := Decoded(table, Read(table, d1, data[0]), data[1..]);
      (d2, out1 + out2)
  }

  /** Decoding goes on from the drained state. */
  lemma DrainFirst(table: seq<int>, d: Decoder, data: seq<Byte>)
    requires |table| == 256
    ensures var (d1, out1) := Drained(d);
            var (d2, out2) := Decoded(table, d1, data);
            Decoded(table, d, data) == (d2, out1 + out2)
  {
    hide Bytes, Read;
    var (d1, out1) := Drained(d);
    if data == [] {
      assert out1 + [] == out1;
    } else {
      ReadNext(table, d1, data);
    }
  }

  lemma ReadNext(table: seq<int>, d: Decoder, data: seq<Byte>)
    requires |table| == 256 && |d.group| != 4
    ensures data == [] ==> Decoded(table, d, data) == (d, [])
    ensures data != [] ==> Decoded(table, d, data) == Decoded(table, Read(table, d, data[0]), data[1..])
  {
    hide Bytes, Flushed, Read;
    assert Drained(d) == (d, []);
    if data != [] {
      var out := Decoded(table, Read(table, d, data[0]), data[1..]).1;
      assert [] + out == out;
    }
  }

  lemma {:induction false} DecodedConcat(table: seq<int>, d: Decoder, a: seq<Byte>, b: seq<Byte>)
    requires |table| == 256
    ensures var (d1, out1) := Decoded(table, d, a);
            var (d2, out2) := Decoded(table, d1, b);
            Decoded(table, d, a + b) == (d2, out1 + out2)
    decreases |a|
  {
    var (d0, out0) := Drained(d);
    if a == [] {
      assert a + b == b;
      DrainFirst(table, d, b);
    } else {
      assert (a + b)[0] == a[0] && (a + b)[1..] == a[1..] + b;
      var r := Read(table, d0, a[0]);
      DecodedConcat(table, r, a[1..], b);
      var (d1, out1) := Decoded(table, r, a[1..]);
      var (d2, out2) := Decoded(table, d1, b);
      assert out0 + (out1 + out2) == (out0 + out1) + out2;
    }
  }

  // ---------------------------------------------------------------- one call with limited room

  /** What Decode does with `data` and `room` bytes of output left: the new state, how much input it
      consumed and what it wrote. */
  function Call(table: seq<int>, d: Decoder, data: seq<Byte>, room: int): (r: (Decoder, nat, seq<Byte>))
    requires |table| == 256
    ensures r.1 <= |data|
    decreases |data|, |d.group|
  {
    if |d.group| == 4 then
      if d.after then Call(table, Flushed(d), data, room)
      else if Octets(d) > room then (d, 0, [])
      else
        var (d', n, out) := Call(table, Flushed(d), data, room - |Bytes(d)|);
        (d', n, Bytes(d) + out)
    else if data == [] then (d, 0, [])
    else
      var (d', n, out) := Call(table, Read(table, d, data[0]), data[1..], room);
      (d', n + 1, out)
  }

  /** One turn of the decoding loop. */
  lemma CallTurn(table: seq<int>, d: Decoder, data: seq<Byte>, room: int, done: seq<Byte>)
    requires |table| == 256
    ensures var (d', n, out) := Call(table, d, data, room);
            if |d.group| == 4 then
              if !d.after && Octets(d) > room then (d', n, out) == (d, 0, []) && done + out == done
              else var (d1, n1, out1) := Call(table, Flushed(d), data, room - |Bytes(d)|);
                   d' == d1 && n == n1 && done + out == (done + Bytes(d)) + out1
            else if data == [] then (d', n, out) == (d, 0, []) && done + out == done
            else var (d1, n1, out1) := Call(table, Read(table, d, data[0]), data[1..], room);
                 (d', n, out) == (d1, n1 + 1, out1)
  {
    if |d.group| == 4 && d.after {
      assert Bytes(d) == [] && done + [] == done;
    }
    hide Bytes, Read, Flushed;
  }

  /** The loop has consumed `dlen` characters, written `done` and is in state d. */
  ghost predicate Progress(table: seq<int>, d0: Decoder, data: seq<Byte>, room: int, d: Decoder, dlen: nat,
      done: seq<Byte>)
  {
    && |table| == 256 && dlen <= |data|
    && var (d', n, out) := Call(table, d, data[dlen..], room - |done|);
       Call(table, d0, data, room) == (d', dlen + n, done + out)
  }

  lemma ProgressStarts(table: seq<int>, d: Decoder, data: seq<Byte>, room: int)
    requires |table| == 256
    ensures Progress(table, d, data, room, d, 0, [])
  {
    hide Call;
    assert data[0..] == data;
    assert [] + Call(table, d, data, room).2 == Call(table, d, data, room).2;
  }

  /** What each turn of the loop does to the progress. */
  lemma ProgressTurn(table: seq<int>, d0: Decoder, data: seq<Byte>, room: int, d: Decoder, dlen: nat, done: seq<Byte>)
    requires Progress(table, d0, data, room, d, dlen, done)
    ensures if |d.group| == 4 then
              if !d.after && Octets(d) > room - |done| then Call(table, d0, data, room) == (d, dlen, done)
              else Progress(table, d0, data, room, Flushed(d), dlen, done + Bytes(d))
            else if dlen == |data| then Call(table, d0, data, room) == (d, dlen, done)
            else Progress(table, d0, data, room, Read(table, d, data[dlen]), dlen + 1, done)
  {
    hide Call, Bytes, Read, Flushed;
    CallTurn(table, d, data[dlen..], room - |done|, done);
    assert dlen < |data| ==> data[dlen..][1..] == data[dlen + 1..];
  }

  /** A call does the first part of the unlimited decoding, and what it leaves undone is exactly the
      decoding of the rest from the state it leaves. It stops early only at a group that does not fit. */
  lemma {:induction false} CallIsPartOf(table: seq<int>, d: Decoder, data: seq<Byte>, room: int)
    requires |table| == 256
    ensures var (d', n, out) := Call(table, d, data, room);
            var (d2, out2) := Decoded(table, d', data[n..]);
            && Decoded(table, d, data) == (d2, out + out2)
            && (n < |data| || |d'.group| == 4 ==> |d'.group| == 4 && !d'.after && |out| + Octets(d') > room)
    decreases |data|, |d.group|
  {
    hide Decoded, Read;
    var (d', n, out) := Call(table, d, data, room);
    var (d2, out2) := Decoded(table, d', data[n..]);
    DrainFirst(table, d, data);
    if |d.group| == 4 {
      if d.after {
        CallIsPartOf(table, Flushed(d), data, room);
        assert [] + (out + out2) == out + out2;
      } else if Octets(d) > room {
        assert data[n..] == data && out + out2 == out2;
      } else {
        CallIsPartOf(table, Flushed(d), data, room - |Bytes(d)|);
        var rest := Call(table, Flushed(d), data, room - |Bytes(d)|).2;
        assert Bytes(d) + (rest + out2) == (Bytes(d) + rest) + out2;
      }
    } else if data == [] {
      assert data[n..] == data;
    } else {
      ReadNext(table, d, data);
      CallIsPartOf(table, Read(table, d, data[0]), data[1..], room);
      assert data[1..][n - 1..] == data[n..];
    }
  }

  // ---------------------------------------------------------------- any sequence of calls

  /** Successive calls, each offered some of the remaining input and some room. */
  function Calls(table: seq<int>, d: Decoder, data: seq<Byte>, plan: seq<(nat, int)>): (r: (Decoder, nat, seq<Byte>))
    requires |table| == 256
    ensures r.1 <= |data|
    decreases |plan|
  {
    if plan == [] then (d, 0, [])
    else
      var offered := if plan[0].0 < |data| then plan[0].0 else |data|;
      var (d1, n, out1) := Call(table, d, data[..offered], plan[0].1);
      var (d2, m, out2) := Calls(table, d1, data[n..], plan[1..]);
      (d2, n + m, out1 + out2)
  }

  lemma CallThenRest(table: seq<int>, d: Decoder, data: seq<Byte>, offered: nat, room: int)
    requires |table| == 256 && offered <= |data|
    ensures var (d', n, out) := Call(table, d, data[..offered], room);
            var (d2, out2) := Decoded(table, d', data[n..]);
            Decoded(table, d, data) == (d2, out + out2)
  {
    hide Call, Decoded;
    var chunk, rest := data[..offered], data[offered..];
    assert chunk + rest == data;
    var (d', n, out) := Call(table, d, chunk, room);
    CallIsPartOf(table, d, chunk, room);
    var (d1, out1) := Decoded(table, d', chunk[n..]);
    DecodedConcat(table, d, chunk, rest);
    DecodedConcat(table, d', chunk[n..], rest);
    assert chunk[n..] + rest == data[n..];
    var out3 := Decoded(table, d1, rest).1;
    assert (out + out1) + out3 == out + (out1 + out3);
  }

  /** Decoding does not depend on how the input and the output room are cut up: once a sequence of
      calls has consumed the input and left no group pending, its state and its concatenated output
      are those of one call with unlimited room. */
  lemma {:induction false} ChunksAgree(table: seq<int>, d: Decoder, data: seq<Byte>, plan: seq<(nat, int)>)
    requires |table| == 256
    ensures var (d', n, out) := Calls(table, d, data, plan);
            var (d2, out2) := Decoded(table, d', data[n..]);
            && Decoded(table, d, data) == (d2, out + out2)
            && (n == |data| && |d'.group| != 4 ==> Decoded(table, d, data) == (d', out))
    decreases |plan|
  {
    hide Call, Decoded;
    var (d', n, out) := Calls(table, d, data, plan);
    if plan == [] {
      assert data[0..] == data;
      var out2 := Decoded(table, d, data).1;
      assert [] + out2 == out2;
    } else {
      var offered := if plan[0].0 < |data| then plan[0].0 else |data|;
      var (d1, n1, out1) := Call(table, d, data[..offered], plan[0].1);
      CallThenRest(table, d, data, offered, plan[0].1);
      ChunksAgree(table, d1, data[n1..], plan[1..]);
      assert data[n1..][n - n1..] == data[n..];
      var rest, out2 := Calls(table, d1, data[n1..], plan[1..]).2, Decoded(table, d', data[n..]).1;
      assert out1 + (rest + out2) == (out1 + rest) + out2;
    }
    if n == |data| && |d'.group| != 4 {
      ReadNext(table, d', data[n..]);
      assert out + [] == out;
    }
  }

  // ---------------------------------------------------------------- sizes

  /** Number of groups completed. */
  function Groups(table: seq<int>, d: Decoder, data: seq<Byte>): nat
    requires |table| == 256
    decreases |data|
  {
    (if |d.group| == 4 then 1 else 0) +
    if data == [] then 0 else Groups(table, Read(table, Drained(d).0, data[0]), data[1..])
  }

  lemma {:induction false} GroupsBound(table: seq<int>, d: Decoder, data: seq<Byte>)
    requires |table| == 256 && |d.group| <= 4
    ensures var (d', out) := Decoded(table, d, data);
            && |d'.group| < 4
            && |out| <= 3 * Groups(table, d, data)
            && 4 * Groups(table, d, data) + |d'.group| <= |d.group| + |data|
    decreases |data|
  {
    if data != [] {
      GroupsBound(table, Read(table, Drained(d).0, data[0]), data[1..]);
    }
  }

  /** The buffer Decode allocates lets it consume everything, with a byte to spare. */
  lemma RoomSuffices(table: seq<int>, d: Decoder, data: seq<Byte>, room: int)
    requires |table| == 256 && |d.group| <= 4 && room >= 3 * ((|d.group| + |data|) / 4)
    ensures var (d', out) := Decoded(table, d, data);
            Call(table, d, data, room) == (d', |data|, out) && |out| <= room && |d'.group| < 4
  {
    hide Call, Decoded, Groups;
    var (d', n, out) := Call(table, d, data, room);
    var (d2, out2) := Decoded(table, d', data[n..]);
    CallIsPartOf(table, d, data, room);
    GroupsBound(table, d, data);
    if n < |data| || |d'.group| == 4 {
      DrainFirst(table, d', data[n..]);
    } else {
      ReadNext(table, d', data[n..]);
      assert out + [] == out;
    }
  }

  // ---------------------------------------------------------------- round trips

  /** Between groups, nothing padded so far. */
  function Between(errored: nat): Decoder { Decoder([], 0, false, errored) }

  lemma GroupBits(data: seq<Byte>, x: nat)
    requires 1 <= |data|
    requires x == data[0] as int * 0x10000 + (if |data| > 1 then data[1] as int * 0x100 else 0) +
             (if |data| > 2 then data[2] else 0)
    ensures x / 0x10000 % 256 == data[0]
    ensures |data| > 1 ==> x / 0x100 % 256 == data[1]
    ensures |data| > 2 ==> x % 256 == data[2]
    ensures |data| < 3 ==> x % 64 == 0
    ensures |data| < 2 ==> x / 0x40 % 64 == 0
    ensures x < 0x1000000
  {
    var a, b, c := data[0] as int, if |data| > 1 then data[1] as int else 0, if |data| > 2 then data[2] as int else 0;
    HighByte(a, b * 0x100 + c);
    LowBytes(a, b, c);
    if |data| < 3 {
      Multiples(a, b);
    }
  }

  lemma HighByte(a: nat, rest: nat)
    requires a < 256 && rest < 0x10000
    ensures (a * 0x10000 + rest) / 0x10000 % 256 == a
  {
    assert (a * 0x10000 + rest) / 0x10000 == a;
  }

  lemma LowBytes(a: nat, b: nat, c: nat)
    requires b < 256 && c < 256
    ensures (a * 0x10000 + b * 0x100 + c) / 0x100 % 256 == b && (a * 0x10000 + b * 0x100 + c) % 256 == c
  {
    var y := a * 256 + b;
    assert a * 0x10000 + b * 0x100 + c == y * 256 + c;
    assert (y * 256 + c) / 256 == y && (y * 256 + c) % 256 == c;
    assert y % 256 == b;
  }

  /** What the missing bytes of a short group leave zero. */
  lemma Multiples(a: nat, b: nat)
    ensures (a * 0x10000 + b * 0x100) % 64 == 0
    ensures a * 0x10000 / 0x40 % 64 == 0
  {
    assert a * 0x10000 + b * 0x100 == (a * 0x400 + b * 4) * 64;
    assert a * 0x10000 / 0x40 == a * 0x400 == a * 16 * 64;
  }

  lemma Sextets(x: nat)
    requires x < 0x1000000
    ensures x / 0x40000 % 64 * 0x40000 + x / 0x1000 % 64 * 0x1000 + x / 0x40 % 64 * 0x40 + x % 64 == x
  {
    var y := x / 0x40;
    var z := y / 0x40;
    assert x / 0x1000 == z && x / 0x40000 == z / 0x40;
    assert x == y * 0x40 + x % 64 && y == z * 0x40 + y % 64 && z == z / 0x40 * 0x40 + z % 64;
    assert z / 0x40 < 64;
  }

  /** Four characters read from between groups complete one group. */
  lemma FourRead(table: seq<int>, e: nat, c: seq<Byte>, rest: seq<Byte>, g: seq<nat>, padding: nat)
    requires |table| == 256 && |c| == 4 && |g| == 4
    requires forall i :: 0 <= i < 4 ==> table[c[i]] == g[i]
    requires padding == (if c[0] == PAD then 1 else 0) + (if c[1] == PAD then 1 else 0) +
             (if c[2] == PAD then 1 else 0) + (if c[3] == PAD then 1 else 0)
    ensures var d := Decoder(g, padding, false, e);
            var (d2, out2) := Decoded(table, Flushed(d), rest);
            Decoded(table, Between(e), c + rest) == (d2, Bytes(d) + out2)
  {
    hide Decoded, Bytes;
    var all := c + rest;
    var d0 := Between(e);
    ReadNext(table, d0, all);
    var d1 := Read(table, d0, c[0]);
    ReadNext(table, d1, all[1..]);
    var d2 := Read(table, d1, c[1]);
    assert all[1..][1..] == all[2..] && all[1..][0] == c[1];
    ReadNext(table, d2, all[2..]);
    var d3 := Read(table, d2, c[2]);
    assert all[2..][1..] == all[3..] && all[2..][0] == c[2];
    ReadNext(table, d3, all[3..]);
    var d4 := Read(table, d3, c[3]);
    assert all[3..][1..] == rest && all[3..][0] == c[3];
    assert d4.group == g;
    DrainFirst(table, d4, rest);
  }

  /** The group that an encoded group is read back as, and its bytes. */
  lemma GroupDecodes(table: seq<int>, alphabet: seq<Byte>, data: seq<Byte>, e: nat, rest: seq<Byte>)
    requires IsAlphabet(alphabet) && IsTable(table, alphabet) && 1 <= |data|
    ensures var n := if |data| < 3 then |data| else 3;
            var (d2, out2) := Decoded(table, Between(e).(after := |data| < 3), rest);
            Decoded(table, Between(e), EncodeGroup(alphabet, data) + rest) == (d2, data[..n] + out2)
  {
    hide Decoded;
    var x: nat := data[0] as int * 0x10000 + (if |data| > 1 then data[1] as int * 0x100 else 0) +
        (if |data| > 2 then data[2] else 0);
    GroupBits(data, x);
    Sextets(x);
    var g := [x / 0x40000 % 64, x / 0x1000 % 64, x / 0x40 % 64, x % 64];
    var c := EncodeGroup(alphabet, data);
    var padding := if |data| < 2 then 2 else if |data| < 3 then 1 else 0;
    ReadBack(table, alphabet, data, x, g);
    FourRead(table, e, c, rest, g, padding);
    var d := Decoder(g, padding, false, e);
    assert Bytes(d) == data[..if |data| < 3 then |data| else 3] by {
      BytesOf(d, x);
    }
  }

  lemma ReadBack(table: seq<int>, alphabet: seq<Byte>, data: seq<Byte>, x: nat, g: seq<nat>)
    requires IsAlphabet(alphabet) && IsTable(table, alphabet) && 1 <= |data|
    requires x == data[0] as int * 0x10000 + (if |data| > 1 then data[1] as int * 0x100 else 0) +
             (if |data| > 2 then data[2] else 0)
    requires g == [x / 0x40000 % 64, x / 0x1000 % 64, x / 0x40 % 64, x % 64]
    ensures var c := EncodeGroup(alphabet, data);
            && (forall i :: 0 <= i < 4 ==> table[c[i]] == g[i])
            && c[0] != PAD && c[1] != PAD && (c[2] == PAD <==> |data| < 2) && (c[3] == PAD <==> |data| < 3)
  {
    GroupBits(data, x);
    TableInverts(table, alphabet, g[0]);
    TableInverts(table, alphabet, g[1]);
    TableInverts(table, alphabet, g[2]);
    TableInverts(table, alphabet, g[3]);
  }

  lemma BytesOf(d: Decoder, x: nat)
    requires x < 0x1000000 && d.group == [x / 0x40000 % 64, x / 0x1000 % 64, x / 0x40 % 64, x % 64]
    requires !d.after && d.padding < 3
    ensures Bytes(d) == [x / 0x10000 % 256, x / 0x100 % 256, x % 256][..3 - d.padding]
  {
    hide Join;
    JoinSextets(x);
  }

  lemma JoinSextets(x: nat)
    requires x < 0x1000000
    ensures Join([x / 0x40000 % 64, x / 0x1000 % 64, x / 0x40 % 64, x % 64]) == x
  {
    Sextets(x);
    ModAgain(x / 0x40000);
    ModAgain(x / 0x1000);
    ModAgain(x / 0x40);
    ModAgain(x);
  }

  lemma ModAgain(x: nat)
    ensures x % 64 % 64 == x % 64
  {
  }

  /** Decoding the encoding gives the bytes back, without an error and with no group pending. */
  lemma {:induction false} RoundTrip(table: seq<int>, alphabet: seq<Byte>, data: seq<Byte>, e: nat)
    requires IsAlphabet(alphabet) && IsTable(table, alphabet)
    ensures Decoded(table, Between(e), Encoded(alphabet, data)) == (Between(e).(after := PadCount(|data|) > 0), data)
    decreases |data|
  {
    hide Decoded, EncodeGroup;
    if data == [] {
      ReadNext(table, Between(e), []);
    } else {
      var rest := if |data| <= 3 then [] else Encoded(alphabet, data[3..]);
      GroupDecodes(table, alphabet, data, e, rest);
      if |data| <= 3 {
        ReadNext(table, Between(e).(after := |data| < 3), []);
        assert data[..|data|] + [] == data;
      } else {
        RoundTrip(table, alphabet, data[3..], e);
        assert data[..3] + data[3..] == data;
      }
    }
  }

  // ---------------------------------------------------------------- missing padding

  function Pads(n: nat): seq<Byte> { seq(n, _ => PAD) }

  /** Done: an incomplete group is filled up with '='. */
  function Finished(table: seq<int>, d: Decoder): (Decoder, seq<Byte>)
    requires |table| == 256 && |d.group| <= 4
  {
    if d.group == [] then (d, []) else Decoded(table, d, Pads(4 - |d.group|))
  }

  /** The encoding without its padding. */
  function Stripped(alphabet: seq<Byte>, data: seq<Byte>): seq<Byte>
    requires |alphabet| == 64
  {
    var all := Encoded(alphabet, data);
    all[..|all| - PadCount(|data|)]
  }

  lemma {:induction false} EncodedAt(table: seq<int>, alphabet: seq<Byte>, data: seq<Byte>, i: nat)
    requires IsAlphabet(alphabet) && IsTable(table, alphabet) && i < |Encoded(alphabet, data)|
    ensures table[Encoded(alphabet, data)[i]] >= 0
    ensures i >= |Encoded(alphabet, data)| - PadCount(|data|) ==> Encoded(alphabet, data)[i] == PAD
    decreases |data|
  {
    hide EncodeGroup;
    GroupLegal(table, alphabet, data);
    var head := EncodeGroup(alphabet, data);
    var tail := if |data| <= 3 then [] else Encoded(alphabet, data[3..]);
    assert Encoded(alphabet, data) == head + tail;
    if i < 4 {
      assert (head + tail)[i] == head[i];
    } else {
      EncodedAt(table, alphabet, data[3..], i - 4);
      assert (head + tail)[i] == tail[i - 4];
    }
  }

  lemma EncodedEnds(table: seq<int>, alphabet: seq<Byte>, data: seq<Byte>)
    requires IsAlphabet(alphabet) && IsTable(table, alphabet)
    ensures Encoded(alphabet, data) == Stripped(alphabet, data) + Pads(PadCount(|data|))
    ensures forall c :: c in Stripped(alphabet, data) ==> table[c] >= 0
  {
    hide Encoded;
    var all := Encoded(alphabet, data);
    forall i | 0 <= i < |all| ensures table[all[i]] >= 0 && (i >= |all| - PadCount(|data|) ==> all[i] == PAD) {
      EncodedAt(table, alphabet, data, i);
    }
  }

  lemma GroupLegal(table: seq<int>, alphabet: seq<Byte>, data: seq<Byte>)
    requires IsAlphabet(alphabet) && IsTable(table, alphabet) && data != []
    ensures forall c :: c in EncodeGroup(alphabet, data) ==> table[c] >= 0
    ensures |data| < 2 ==> EncodeGroup(alphabet, data)[2] == PAD
    ensures |data| < 3 ==> EncodeGroup(alphabet, data)[3] == PAD
  {
  }

  lemma {:induction false} GroupsExact(table: seq<int>, d: Decoder, data: seq<Byte>)
    requires |table| == 256 && |d.group| <= 4 && forall c :: c in data ==> table[c] >= 0
    ensures 4 * Groups(table, d, data) + |Decoded(table, d, data).0.group| == |d.group| + |data|
    decreases |data|
  {
    if data != [] {
      GroupsExact(table, Read(table, Drained(d).0, data[0]), data[1..]);
    }
  }

  lemma {:induction false} PadsFew(n: nat)
    ensures PadCount(n) <= 2
  {
    if n > 3 {
      PadsFew(n - 3);
    }
  }

  /** Decoding an encoding whose padding was stripped, followed by Done, also gives the bytes back. */
  lemma UnpaddedRoundTrip(table: seq<int>, alphabet: seq<Byte>, data: seq<Byte>, e: nat)
    requires IsAlphabet(alphabet) && IsTable(table, alphabet)
    ensures var (d1, out1) := Decoded(table, Between(e), Stripped(alphabet, data));
            && |d1.group| < 4
            && var (d2, out2) := Finished(table, d1);
               out1 + out2 == data && d2.errored == e
  {
    hide Decoded, Encoded, Groups;
    var stripped, pads := Stripped(alphabet, data), Pads(PadCount(|data|));
    var (d1, out1) := Decoded(table, Between(e), stripped);
    RoundTrip(table, alphabet, data, e);
    EncodedEnds(table, alphabet, data);
    DecodedConcat(table, Between(e), stripped, pads);
    GroupsExact(table, Between(e), stripped);
    GroupsBound(table, Between(e), stripped);
    EncodedLengthIs(|data|);
    PadsFew(|data|);
    if PadCount(|data|) == 0 {
      assert d1.group == [];
      ReadNext(table, d1, pads);
      assert out1 + [] == out1;
    } else {
      assert 4 - |d1.group| == PadCount(|data|);
    }
  }

  /** In a buffer sized for the input, decoding and Done together leave room for a terminator. */
  lemma TerminatorFits(table: seq<int>, data: seq<Byte>)
    requires |table| == 256
    ensures var (d1, out1) := Decoded(table, Fresh(), data);
            && |d1.group| < 4
            && |out1| + |Finished(table, d1).1| <= (|data| + 3) / 4 * 3
            && (d1.group != [] ==> |Finished(table, d1).1| <= 3 && |out1| + 3 <= (|data| + 3) / 4 * 3)
  {
    hide Decoded, Groups;
    var d1 := Decoded(table, Fresh(), data).0;
    GroupsBound(table, Fresh(), data);
    if d1.group != [] {
      GroupsBound(table, d1, Pads(4 - |d1.group|));
    }
  }
}

/** Conversion of names between UTF-16 and UTF-8 (fs/exfat/utf.c), with the
  * 16-bit wide characters of the build's compiler. */
module Utf {
  import opened Bytes

  datatype Conversion<T> = Converted(text: seq<T>) | Illegal | TooLong

  // ---- one character ----

  predicate IsHigh(u: u16) { 0xd800 <= u < 0xdc00 }

  predicate IsLow(u: u16) { 0xdc00 <= u < 0xe000 }

  /** A character taken from the front of the input, and how much it took. */
  datatype Taken = Bad | Taken(wc: u16, size: nat)

  /** utf16_to_wchar. A surrogate pair is cut to the low 16 bits of its value. */
  function Next16(u: seq<u16>): (t: Taken)
    requires u != []
    ensures t.Taken? ==> 1 <= t.size <= |u|
  {
    if IsHigh(u[0]) then
      if |u| < 2 || !IsLow(u[1]) then Bad
      else Taken((u[0] as int % 0x400 * 0x400 + u[1] as int % 0x400) % 0x1_0000, 2)
    else Taken(u[0], 1)
  }

  /** wchar_to_utf8, for a 16-bit character. */
  function Encode(wc: u16): (b: seq<byte>)
    ensures 1 <= |b| <= 3
    ensures wc != 0 ==> 0 !in b
  {
    if wc <= 0x7f then [wc]
    else if wc <= 0x7ff then [0xc0 + wc / 0x40, 0x80 + wc % 0x40]
    else [0xe0 + wc / 0x1000, 0x80 + wc / 0x40 % 0x40, 0x80 + wc % 0x40]
  }

  /** The bytes of a character: one below 0x80, two below 0x800, three above; six
    * bits in every byte behind the first. */
  lemma EncodeLayout(wc: u16)
    ensures var b := Encode(wc);
            && (wc < 0x80 ==> b == [wc])
            && (0x80 <= wc < 0x800 ==>
                  |b| == 2 && 0xc2 <= b[0] <= 0xdf && 0x80 <= b[1] <= 0xbf && wc == 64 * (b[0] as int - 0xc0) + (b[1] as int - 0x80))
            && (wc >= 0x800 ==>
                  && |b| == 3 && 0xe0 <= b[0] <= 0xef && 0x80 <= b[1] <= 0xbf && 0x80 <= b[2] <= 0xbf
                  && wc == 4096 * (b[0] as int - 0xe0) + 64 * (b[1] as int - 0x80) + (b[2] as int - 0x80))
    ensures Encode(0xe9) == [0xc3, 0xa9] && Encode(0x20ac) == [0xe2, 0x82, 0xac]
  {
  }

  /** The length a first byte announces; 0 for none. */
  function Length(b: byte): (n: nat)
    ensures n <= 6
  {
    if b < 0x80 then 1
    else if 0xc0 <= b < 0xe0 then 2
    else if 0xe0 <= b < 0xf0 then 3
    else if 0xf0 <= b < 0xf8 then 4
    else if 0xf8 <= b < 0xfc then 5
    else if 0xfc <= b < 0xfe then 6
    else 0
  }

  /** The bits of the first byte, shifted into a 16-bit character. */
  function Lead(b: byte): u16 {
    match Length(b)
    case 1 => b
    case 2 => b % 0x20 * 0x40
    case 3 => b % 0x10 * 0x1000
    case _ => 0
  }

  /** The bits of a continuation byte with `left` bytes to follow it. */
  function Bits(b: byte, left: nat): u16 {
    match left
    case 0 => b % 0x40
    case 1 => b % 0x40 * 0x40
    case 2 => b % 0x10 * 0x1000
    case _ => 0
  }

  predicate Continues(b: byte) { 0x80 <= b < 0xc0 }

  /** `wc` with the continuation bytes `b` or-ed in, if they are such bytes. */
  function Rest(wc: nat, b: seq<byte>): (t: Taken)
    decreases |b|
  {
    if b == [] then Taken(wc % 0x1_0000, 0)
    else if !Continues(b[0]) then Bad
    else Rest(wc + Bits(b[0], |b| - 1), b[1..])
  }

  /** utf8_to_wchar */
  function Next8(b: seq<byte>): (t: Taken)
    requires b != []
    ensures t.Taken? ==> 1 <= t.size <= |b|
  {
    var n := Length(b[0]);
    if n == 0 || |b| < n then Bad
    else
      var t := Rest(Lead(b[0]), b[1..n]);
      if t.Bad? then Bad else Taken(t.wc, n)
  }

  /** Decoding the bytes of a character gives the character back. */
  lemma DecodeEncoded(wc: u16, more: seq<byte>)
    ensures Next8(Encode(wc) + more) == Taken(wc, |Encode(wc)|)
  {
    var e := Encode(wc);
    var b := e + more;
    assert b[0] == e[0];
    if wc <= 0x7f {
      assert b[1..1] == [];
    } else if wc <= 0x7ff {
      Two(wc);
      hide Encode, Length, Lead, Bits;
      RestTwo(Lead(e[0]), e[1]);
      assert b[1..2] == [e[1]];
    } else {
      Three(wc);
      hide Encode, Length, Lead, Bits;
      RestThree(Lead(e[0]), e[1], e[2]);
      assert b[1..3] == [e[1], e[2]];
    }
  }

  lemma RestTwo(wc: nat, x: byte)
    requires Continues(x) && wc + Bits(x, 0) < 0x1_0000
    ensures Rest(wc, [x]) == Taken(wc + Bits(x, 0), 0)
  {
    assert [x][1..] == [];
  }

  lemma RestThree(wc: nat, x: byte, y: byte)
    requires Continues(x) && Continues(y) && wc + Bits(x, 1) + Bits(y, 0) < 0x1_0000
    ensures Rest(wc, [x, y]) == Taken(wc + Bits(x, 1) + Bits(y, 0), 0)
  {
    assert [x, y][1..] == [y];
    RestTwo(wc + Bits(x, 1), y);
  }

  lemma Two(wc: u16)
    requires 0x7f < wc <= 0x7ff
    ensures var e := Encode(wc);
            && |e| == 2 && Length(e[0]) == 2 && Continues(e[1])
            && Lead(e[0]) as int + Bits(e[1], 0) as int == wc
  {
  }

  lemma Three(wc: u16)
    requires wc > 0x7ff
    ensures var e := Encode(wc);
            && |e| == 3 && Length(e[0]) == 3 && Continues(e[1]) && Continues(e[2])
            && Lead(e[0]) as int + Bits(e[1], 1) as int + Bits(e[2], 0) as int == wc
  {
    assert wc / 0x40 / 0x40 == wc / 0x1000;
    assert wc == wc / 0x40 * 0x40 + wc % 0x40;
    assert wc / 0x40 == wc / 0x1000 * 0x40 + wc / 0x40 % 0x40;
  }

  /** A unit stands for itself unless it is a high surrogate, which needs a low
    * one behind it; the pair's character loses its upper bits. */
  lemma UnitExact(u: seq<u16>)
    requires u != []
    ensures Next16(u).Bad? <==> 0xd800 <= u[0] <= 0xdbff && (|u| == 1 || u[1] < 0xdc00 || u[1] > 0xdfff)
    ensures !(0xd800 <= u[0] <= 0xdbff) ==> Next16(u) == Taken(u[0], 1)
    ensures 0xd800 <= u[0] <= 0xdbff && Next16(u).Taken? ==>
              Next16(u) == Taken((0x1_0000 + 0x400 * (u[0] as int - 0xd800) + (u[1] as int - 0xdc00)) % 0x1_0000, 2)
  {
    if IsHigh(u[0]) && |u| > 1 && IsLow(u[1]) { PairBits(u[0], u[1]); }
  }

  lemma PairBits(hi: nat, lo: nat)
    requires 0xd800 <= hi < 0xdc00 <= lo < 0xe000
    ensures hi % 0x400 == hi - 0xd800 && lo % 0x400 == lo - 0xdc00
  {
  }

  /** The first byte announces as many bytes as it has leading ones. */
  lemma LengthExact(b: byte)
    ensures Length(b) == 0 <==> 0x80 <= b <= 0xbf || b >= 0xfe
    ensures Length(b) == 1 <==> b <= 0x7f
    ensures Length(b) == 2 <==> 0x100 - 0x40 <= b < 0x100 - 0x20
    ensures Length(b) == 3 <==> 0x100 - 0x20 <= b < 0x100 - 0x10
    ensures Length(b) == 4 <==> 0x100 - 0x10 <= b < 0x100 - 0x08
    ensures Length(b) == 5 <==> 0x100 - 0x08 <= b < 0x100 - 0x04
    ensures Length(b) == 6 <==> 0x100 - 0x04 <= b < 0x100 - 0x02
  {
  }

  /** What decodes: a first byte and the bytes it announces, all of them between
    * 0x80 and 0xbf. */
  lemma DecodeExact(b: seq<byte>)
    requires b != []
    ensures Next8(b).Taken? <==> 1 <= Length(b[0]) <= |b| && forall i | 1 <= i < Length(b[0]) :: 0x80 <= b[i] <= 0xbf
    ensures Next8(b).Taken? ==> Next8(b) == Taken((Lead(b[0]) as int + Low(b[1..Length(b[0])])) % 0x1_0000, Length(b[0]))
  {
    var n := Length(b[0]);
    if 1 <= n <= |b| {
      RestExact(Lead(b[0]), b[1..n]);
      hide Rest, Length, Lead, Low;
      assert forall i | 1 <= i < n :: b[1..n][i - 1] == b[i];
    }
  }

  /** Up to three bytes hold all the bits of the character; of more, the last
    * three hold its low 16 bits. */
  lemma DecodeValue(b: seq<byte>)
    requires b != [] && Next8(b).Taken?
    ensures var (n, wc) := (Next8(b).size, Next8(b).wc);
            && n == Length(b[0])
            && (n == 1 ==> wc == b[0])
            && (n == 2 ==> wc == 0x40 * (b[0] as int - 0xc0) + (b[1] as int - 0x80))
            && (n == 3 ==> wc == 0x1000 * (b[0] as int - 0xe0) + 0x40 * (b[1] as int - 0x80) + (b[2] as int - 0x80))
            && (n > 3 ==> wc == (0x1000 * (b[n - 3] as int - 0x80) + 0x40 * (b[n - 2] as int - 0x80) + (b[n - 1] as int - 0x80)) % 0x1_0000)
  {
    hide Rest, Length, Lead, Low, Next8;
    var n := Length(b[0]);
    DecodeExact(b);
    LeadBits(b[0]);
    LengthExact(b[0]);
    LowBits(b, n);
  }

  lemma LeadBits(b: byte)
    ensures Length(b) == 1 ==> Lead(b) == b
    ensures Length(b) == 2 ==> Lead(b) == 0x40 * (b as int - 0xc0)
    ensures Length(b) == 3 ==> Lead(b) == 0x1000 * (b as int - 0xe0)
    ensures Length(b) > 3 ==> Lead(b) == 0
  {
  }

  lemma LowBits(b: seq<byte>, n: nat)
    requires 1 <= n <= |b| && forall i | 1 <= i < n :: Continues(b[i])
    ensures n == 1 ==> Low(b[1..n]) == 0
    ensures n == 2 ==> Low(b[1..n]) == b[1] as int - 0x80
    ensures n == 3 ==> Low(b[1..n]) == 0x40 * (b[1] as int - 0x80) + (b[2] as int - 0x80)
    ensures n > 3 ==>
              Low(b[1..n]) % 0x1_0000 ==
              (0x1000 * (b[n - 3] as int - 0x80) + 0x40 * (b[n - 2] as int - 0x80) + (b[n - 1] as int - 0x80)) % 0x1_0000
  {
    if n > 1 { SixBits(b[n - 1]); }
    if n > 2 { SixBits(b[n - 2]); }
    if n > 3 {
      SixBits(b[n - 3]);
      var x := b[n - 3] as int - 0x80;
      assert 0x1000 * x == b[n - 3] as int % 0x10 * 0x1000 + 0x1_0000 * (x / 0x10);
    }
  }

  lemma SixBits(b: byte)
    requires Continues(b)
    ensures b % 0x40 == b - 0x80 && b as int % 0x10 == (b as int - 0x80) % 0x10
  {
  }

  /** The bits of the last three of some continuation bytes. */
  function Low(b: seq<byte>): nat {
    (if |b| >= 1 then b[|b| - 1] as int % 0x40 else 0) + (if |b| >= 2 then b[|b| - 2] as int % 0x40 * 0x40 else 0)
    + (if |b| >= 3 then b[|b| - 3] as int % 0x10 * 0x1000 else 0)
  }

  lemma {:induction false} RestExact(wc: nat, b: seq<byte>)
    ensures Rest(wc, b).Taken? <==> forall i | 0 <= i < |b| :: Continues(b[i])
    ensures Rest(wc, b).Taken? ==> Rest(wc, b).wc == (wc + Low(b)) % 0x1_0000
    decreases |b|
  {
    if b != [] {
      var tail := b[1..];
      RestExact(wc + Bits(b[0], |b| - 1), tail);
      assert forall i | 1 <= i < |b| :: b[i] == tail[i - 1];
      assert Low(b) == Low(tail) + Bits(b[0], |b| - 1);
    }
  }

  // ---- whole names ----

  /** exfat_utf16_to_utf8 into a buffer with room for `room` bytes, the
    * terminating zero included. */
  function To8(u: seq<u16>, room: nat): (c: Conversion<byte>)
    decreases |u|
  {
    if u == [] then (if room == 0 then TooLong else Converted([]))
    else
      var t := Next16(u);
      if t.Bad? then Illegal
      else
        var e := Encode(t.wc);
        if room < |e| then TooLong
        else if t.wc == 0 then Converted([])
        else
          var rest := To8(u[t.size..], room - |e|);
          if rest.Converted? then Converted(e + rest.text) else rest
  }

  /** exfat_utf8_to_utf16 into a buffer of `room` units. */
  function To16(b: seq<byte>, room: nat): (c: Conversion<u16>)
    decreases |b|
  {
    if b == [] then (if room == 0 then TooLong else Converted([]))
    else
      var t := Next8(b);
      if t.Bad? then Illegal
      else if room == 0 then TooLong
      else if t.wc == 0 then (if room == 1 then TooLong else Converted([]))
      else
        var rest := To16(b[t.size..], room - 1);
        if rest.Converted? then Converted([t.wc] + rest.text) else rest
  }

  /** The characters of a name that converts. */
  function Chars(u: seq<u16>): (w: seq<u16>)
    ensures |w| <= |u|
    decreases |u|
  {
    if u == [] then []
    else
      var t := Next16(u);
      if t.Bad? || t.wc == 0 then [] else [t.wc] + Chars(u[t.size..])
  }

  predicate Whole(u: seq<u16>) { 0 !in u }

  predicate NoHigh(u: seq<u16>) { forall i :: 0 <= i < |u| ==> !IsHigh(u[i]) }

  /** Whatever converts to UTF-8 converts back to its characters. */
  lemma {:induction false} BackToChars(u: seq<u16>, room: nat, back: nat)
    requires To8(u, room).Converted? && back > |u|
    ensures To16(To8(u, room).text, back) == Converted(Chars(u))
    decreases |u|
  {
    hide Next16, Next8, Encode;
    if u != [] {
      var t := Next16(u);
      var e := Encode(t.wc);
      if t.wc != 0 {
        var rest := u[t.size..];
        BackToChars(rest, room - |e|, back - 1);
        var more := To8(rest, room - |e|).text;
        DecodeEncoded(t.wc, more);
        assert (e + more)[|e|..] == more;
      }
    }
  }

  function Encoded(w: seq<u16>): seq<byte> {
    if w == [] then [] else Encode(w[0]) + Encoded(w[1..])
  }

  /** What is left of a name where its characters end: nothing, a zero, or units
    * that stand for no character. */
  function Left(u: seq<u16>): (rest: seq<u16>)
    decreases |u|
  {
    if u == [] then []
    else
      var t := Next16(u);
      if t.Bad? || t.wc == 0 then u else Left(u[t.size..])
  }

  /** The conversion of every name: it is the encoding of its characters, if that
    * leaves room for the terminating zero. */
  lemma {:induction false} To8Exact(u: seq<u16>, room: nat)
    ensures var (b, rest) := (Encoded(Chars(u)), Left(u));
            To8(u, room) == if rest != [] && Next16(rest).Bad? then (if |b| <= room then Illegal else TooLong)
                            else if |b| < room then Converted(b) else TooLong
    decreases |u|
  {
    assert |Encode(0)| == 1;
    hide Next16, Encode;
    if u != [] {
      var t := Next16(u);
      if t.Taken? && t.wc != 0 {
        var e := Encode(t.wc);
        var rest := u[t.size..];
        assert ([t.wc] + Chars(rest))[1..] == Chars(rest);
        if |e| <= room { To8Exact(rest, room - |e|); }
      }
    }
  }

  /** The characters of UTF-8 text, and what is left where they end. */
  function Chars8(b: seq<byte>): (w: seq<u16>)
    decreases |b|
  {
    if b == [] then []
    else
      var t := Next8(b);
      if t.Bad? || t.wc == 0 then [] else [t.wc] + Chars8(b[t.size..])
  }

  function Left8(b: seq<byte>): (rest: seq<byte>)
    decreases |b|
  {
    if b == [] then []
    else
      var t := Next8(b);
      if t.Bad? || t.wc == 0 then b else Left8(b[t.size..])
  }

  /** The conversion of every text: it is its characters, if they leave room for
    * the terminating zero, and for one more if the text holds a zero itself. */
  lemma {:induction false} To16Exact(b: seq<byte>, room: nat)
    ensures var (w, rest) := (Chars8(b), Left8(b));
            To16(b, room) == if rest != [] && Next8(rest).Bad? then (if |w| <= room then Illegal else TooLong)
                             else if |w| + (if rest == [] then 0 else 1) < room then Converted(w) else TooLong
    decreases |b|
  {
    hide Next8;
    if b != [] {
      var t := Next8(b);
      if t.Taken? && t.wc != 0 && room > 0 { To16Exact(b[t.size..], room - 1); }
    }
  }

  /** The characters of a name are its units exactly when none of them is a
    * high surrogate. */
  lemma {:induction false} CharsAreUnits(u: seq<u16>)
    requires Whole(u)
    ensures Chars(u) == u <==> NoHigh(u)
    decreases |u|
  {
    if u != [] {
      var t := Next16(u);
      if t.Taken? && t.size == 1 {
        CharsAreUnits(u[1..]);
        assert u == [u[0]] + u[1..];
        assert NoHigh(u) <==> !IsHigh(u[0]) && NoHigh(u[1..]);
      } else {
        assert IsHigh(u[0]);
        assert |Chars(u)| < |u|;
      }
    }
  }

  /** Three bytes a unit and one for the terminator are enough. */
  lemma {:induction false} EnoughRoom(u: seq<u16>, room: nat)
    requires NoHigh(u) && room > 3 * |u|
    ensures To8(u, room).Converted? && |To8(u, room).text| <= 3 * |u| && 0 !in To8(u, room).text
    decreases |u|
  {
    if u != [] && u[0] != 0 {
      EnoughRoom(u[1..], room - |Encode(u[0])|);
    }
  }

  predicate RoundTrips(u: seq<u16>) {
    To8(u, 3 * |u| + 1).Converted? && To16(To8(u, 3 * |u| + 1).text, |u| + 1) == Converted(u)
  }

  /** A name of non-zero units survives the trip to UTF-8 and back if and only
    * if it has no high surrogate. */
  lemma RoundTrip(u: seq<u16>)
    requires Whole(u)
    ensures RoundTrips(u) <==> NoHigh(u)
  {
    hide To8, To16, Chars, NoHigh, Whole;
    CharsAreUnits(u);
    if NoHigh(u) { EnoughRoom(u, 3 * |u| + 1); }
    if To8(u, 3 * |u| + 1).Converted? { BackToChars(u, 3 * |u| + 1, |u| + 1); }
  }

  /** The name buffers hold every name of up to 255 units. */
  lemma NameBuffers(u: seq<u16>)
    requires Whole(u) && NoHigh(u) && |u| <= 255
    ensures To8(u, 255 * 3 + 1).Converted? && To16(To8(u, 255 * 3 + 1).text, 256) == Converted(u)
  {
    EnoughRoom(u, 255 * 3 + 1);
    BackToChars(u, 255 * 3 + 1, 256);
    CharsAreUnits(u);
  }

  // ---- the source's loops ----

  /** To8 by its next character. */
  lemma Step8(input: seq<u16>, i: nat, outsize: nat, out: seq<byte>)
    requires i < |input| && |out| <= outsize && Joined(To8(input, outsize), out, To8(input[i..], outsize - |out|))
    ensures var t := Next16(input[i..]);
            if t.Bad? then To8(input, outsize) == Illegal
            else if outsize - |out| < |Encode(t.wc)| then To8(input, outsize) == TooLong
            else if t.wc == 0 then To8(input, outsize) == Converted(out)
            else Joined(To8(input, outsize), out + Encode(t.wc), To8(input[i + t.size..], outsize - |out| - |Encode(t.wc)|))
  {
    hide Encode, Next16;
    var t := Next16(input[i..]);
    if t.Taken? { assert input[i..][t.size..] == input[i + t.size..]; }
    assert To8(input[i..], outsize - |out|).Converted? && t.Taken? && t.wc == 0 ==> out + [] == out;
  }

  method Utf16ToUtf8(input: seq<u16>, outsize: nat) returns (c: Conversion<byte>)
    ensures c == To8(input, outsize)
  {
    hide To8, Next16, Encode;
    var i, out := 0, [];
    assert input[0..] == input;
    JoinedNone(To8(input, outsize));
    while i < |input|
      invariant 0 <= i <= |input| && |out| <= outsize
      invariant Joined(To8(input, outsize), out, To8(input[i..], outsize - |out|))
    {
      var t := Next16(input[i..]);
      Step8(input, i, outsize, out);
      if t.Bad? { return Illegal; }
      var e := Encode(t.wc);
      if outsize - |out| < |e| { return TooLong; }
      if t.wc == 0 { return Converted(out); }
      i, out := i + t.size, out + e;
    }
    assert input[i..] == [];
    End8(outsize - |out|);
    assert out + [] == out;
    if |out| >= outsize { return TooLong; }
    return Converted(out);
  }

  lemma End8(room: nat)
    ensures To8([], room) == if room == 0 then TooLong else Converted([])
  {
  }

  lemma JoinedNone<T>(c: Conversion<T>)
    ensures Joined(c, [], c)
  {
    if c.Converted? { assert [] + c.text == c.text; }
  }

  /** `whole` is `front` followed by `rest`, or the same failure. */
  ghost predicate Joined<T>(whole: Conversion<T>, front: seq<T>, rest: Conversion<T>) {
    whole == if rest.Converted? then Converted(front + rest.text) else rest
  }

  /** To16 by its next character. */
  lemma Step16(input: seq<byte>, i: nat, outsize: nat, out: seq<u16>)
    requires i < |input| && |out| <= outsize && Joined(To16(input, outsize), out, To16(input[i..], outsize - |out|))
    ensures var t := Next8(input[i..]);
            if t.Bad? then To16(input, outsize) == Illegal
            else if |out| >= outsize then To16(input, outsize) == TooLong
            else if t.wc == 0 then To16(input, outsize) == if |out| + 1 >= outsize then TooLong else Converted(out)
            else Joined(To16(input, outsize), out + [t.wc], To16(input[i + t.size..], outsize - |out| - 1))
  {
    hide Next8;
    var t := Next8(input[i..]);
    if t.Taken? { assert input[i..][t.size..] == input[i + t.size..]; }
    assert To16(input[i..], outsize - |out|).Converted? && t.Taken? && t.wc == 0 ==> out + [] == out;
  }

  lemma End16(room: nat)
    ensures To16([], room) == if room == 0 then TooLong else Converted([])
  {
  }

  method Utf8ToUtf16(input: seq<byte>, outsize: nat) returns (c: Conversion<u16>)
    ensures c == To16(input, outsize)
  {
    hide To16, Next8;
    var i, out := 0, [];
    assert input[0..] == input;
    JoinedNone(To16(input, outsize));
    while i < |input|
      invariant 0 <= i <= |input| && |out| <= outsize
      invariant Joined(To16(input, outsize), out, To16(input[i..], outsize - |out|))
    {
      var t := Utf8ToWchar(input[i..]);
      Step16(input, i, outsize, out);
      if t.Bad? { return Illegal; }
      if |out| >= outsize { return TooLong; }
      if t.wc == 0 {
        if |out| + 1 >= outsize { return TooLong; }
        return Converted(out);
      }
      i, out := i + t.size, out + [t.wc];
    }
    assert input[i..] == [];
    End16(outsize - |out|);
    assert out + [] == out;
    if |out| >= outsize { return TooLong; }
    return Converted(out);
  }

  method Utf8ToWchar(b: seq<byte>) returns (t: Taken)
    requires b != []
    ensures t == Next8(b)
  {
    var size := Length(b[0]);
    if size == 0 { return Bad; }
    if |b| < size { return Bad; }
    var wc: nat := Lead(b[0]);
    var i := 1;
    while i < size
      invariant 1 <= i <= size
      invariant Rest(Lead(b[0]), b[1..size]) == Rest(wc, b[i..size])
    {
      assert b[i..size][1..] == b[i + 1..size];
      if !Continues(b[i]) { return Bad; }
      wc := wc + Bits(b[i], size - i - 1);
      i := i + 1;
    }
    assert b[i..size] == [];
    t := Taken(wc % 0x1_0000, size);
  }
}

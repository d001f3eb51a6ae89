/** The strings of a config text: parse_string with its escapes, and the bytes it copies. */
module ConfigChars {
  import opened ConfigNumbers
  import opened ConfigText

  const BACKSLASH: nat := 92

  /** The characters of a quoted string with its \x escapes decoded, and a terminator. */
  function QuotedBytes(s: Text, p: nat): (r: seq<nat>)
    requires p <= Nul(s)
    ensures r != []
    decreases Nul(s) - p
  {
    if s[p] == 0 || s[p] == QUOTE then [0]
    else if s[p] == BACKSLASH && s[p + 1] == LOWER_X && IsHex(s[p + 2]) then
      if IsHex(s[p + 3]) then [HexDigit(s[p + 2]) * 16 + HexDigit(s[p + 3])] + QuotedBytes(s, p + 4)
      else [HexDigit(s[p + 2])] + QuotedBytes(s, p + 3)
    else [s[p]] + QuotedBytes(s, p + 1)
  }

  /** All that parse_string yields, before truncation. */
  function StringBytes(s: Text, p: nat): (r: seq<nat>)
    requires p <= Nul(s)
    ensures r != []
  {
    if s[p] == QUOTE then QuotedBytes(s, p + 1) else s[p..KeyEnd(s, p)] + [0]
  }

  // ----- copying into a buffer -----

  function Min(a: nat, b: nat): (m: nat)
    ensures m <= a && m <= b
  {
    if a < b then a else b
  }

  /** Overwrite buf from at on. */
  function Blit<T>(buf: seq<T>, at: nat, bytes: seq<T>): (r: seq<T>)
    ensures |r| == |buf|
  {
    if at + |bytes| <= |buf| then buf[..at] + bytes + buf[at + |bytes|..] else buf
  }

  lemma BlitTwice<T>(buf: seq<T>, at: nat, x: seq<T>, y: seq<T>)
    requires at + |x| + |y| <= |buf|
    ensures Blit(Blit(buf, at, x), at + |x|, y) == Blit(buf, at, x + y)
  {}

  lemma BlitNone<T>(buf: seq<T>, at: nat)
    ensures Blit(buf, at, []) == buf
  {}

  lemma BlitGrows(buf: seq<nat>, at: nat, x: seq<nat>, c: nat)
    requires at + |x| + 1 <= |buf|
    ensures Blit(buf, at, x + [c]) == Blit(buf, at, x)[at + |x| := c]
  {}

  lemma KeyStep(s: Text, p: nat)
    requires p <= Nul(s)
    ensures if KeyChar(s[p]) then p + 1 <= KeyEnd(s, p) == KeyEnd(s, p + 1) else KeyEnd(s, p) == p
  {}

  lemma {:induction false} QuotedEnds(s: Text, p: nat)
    requires p <= Nul(s) && (s[p] == 0 || s[p] == QUOTE)
    ensures QuotedBytes(s, p) == [0]
  {}

  /** `if (maxlen) { *output++ = ch; --maxlen; }`, when out characters have been produced before */
  method PutChar(buf: seq<nat>, at: nat, out: nat, maxlen: nat, ch: nat, ghost done: seq<nat>, ghost was: seq<nat>)
    returns (buf': seq<nat>)
    requires |done| == out && (maxlen > 0 ==> at + Min(out + 1, maxlen) <= |was|)
    requires buf == if maxlen > 0 then Blit(was, at, done[..Min(out, maxlen)]) else was
    ensures buf' == if maxlen > 0 then Blit(was, at, (done + [ch])[..Min(out + 1, maxlen)]) else was
  {
    buf' := buf;
    if out < maxlen {
      BlitGrows(was, at, done, ch);
      assert done[..out] == done && (done + [ch])[..out + 1] == done + [ch];
      buf' := buf'[at + out := ch];
    } else {
      assert (done + [ch])[..Min(out + 1, maxlen)] == done[..Min(out, maxlen)];
    }
  }

  /** parse_string, to buf at `at`: the length of the whole string is returned, and as much of it written as
    maxlen allows. */
  method ParseString(text: Text, str: nat, buf: seq<nat>, at: nat, maxlen: nat) returns (out: nat, buf': seq<nat>)
    requires str <= Nul(text)
    requires maxlen > 0 ==> at + Min(|StringBytes(text, str)|, maxlen) <= |buf|
    ensures out == |StringBytes(text, str)|
    ensures buf' == if maxlen > 0 then Blit(buf, at, StringBytes(text, str)[..Min(out, maxlen)]) else buf
  {
    if text[str] == QUOTE {
      out, buf' := ParseQuotedString(text, str + 1, buf, at, maxlen);
    } else {
      out, buf' := ParseBareString(text, str, buf, at, maxlen);
    }
  }

  /** The loop of parse_string. */
  method ParseBareString(text: Text, str: nat, buf: seq<nat>, at: nat, maxlen: nat) returns (out: nat, buf': seq<nat>)
    requires str <= Nul(text)
    requires maxlen > 0 ==> at + Min(KeyEnd(text, str) - str + 1, maxlen) <= |buf|
    ensures out == KeyEnd(text, str) - str + 1
    ensures buf' == if maxlen > 0 then Blit(buf, at, (text[str..KeyEnd(text, str)] + [0])[..Min(out, maxlen)]) else buf
  {
    hide Blit, KeyEnd;
    ghost var end := KeyEnd(text, str);
    out, buf' := 0, buf;
    var p := str;
    BlitNone(buf, at);
    while text[p] >= 35 && text[p] <= 122 && text[p] != SEMI
      invariant str <= p <= end && KeyEnd(text, p) == end && out == p - str
      invariant buf' == if maxlen > 0 then Blit(buf, at, text[str..p][..Min(out, maxlen)]) else buf
      decreases Nul(text) - p
    {
      KeyStep(text, p);
      buf' := PutChar(buf', at, out, maxlen, text[p], text[str..p], buf);
      assert text[str..p] + [text[p]] == text[str..p + 1];
      out := out + 1;
      p := p + 1;
    }
    KeyStep(text, p);
    buf' := PutChar(buf', at, out, maxlen, 0, text[str..p], buf);
    out := out + 1;
  }

  /** parse_quoted_string, from behind the quote. */
  method ParseQuotedString(text: Text, str: nat, buf: seq<nat>, at: nat, maxlen: nat) returns (out: nat, buf': seq<nat>)
    requires str <= Nul(text)
    requires maxlen > 0 ==> at + Min(|QuotedBytes(text, str)|, maxlen) <= |buf|
    ensures out == |QuotedBytes(text, str)|
    ensures buf' == if maxlen > 0 then Blit(buf, at, QuotedBytes(text, str)[..Min(out, maxlen)]) else buf
  {
    hide Blit, QuotedBytes;
    ghost var all := QuotedBytes(text, str);
    ghost var done: seq<nat> := [];
    out, buf' := 0, buf;
    var p := str;
    BlitNone(buf, at);
    while text[p] != 0 && text[p] != QUOTE
      invariant str <= p <= Nul(text) && |done| == out && all == done + QuotedBytes(text, p)
      invariant buf' == if maxlen > 0 then Blit(buf, at, done[..Min(out, maxlen)]) else buf
      decreases Nul(text) - p
    {
      var ch;
      ch, p := DecodeChar(text, p);
      assert all == done + [ch] + QuotedBytes(text, p);
      buf' := PutChar(buf', at, out, maxlen, ch, done, buf);
      out := out + 1;
      done := done + [ch];
    }
    QuotedEnds(text, p);
    buf' := PutChar(buf', at, out, maxlen, 0, done, buf);
    out := out + 1;
  }

  /** One turn of the loop of parse_quoted_string: the character at s, and s behind it. */
  method DecodeChar(text: Text, s: nat) returns (ch: nat, p: nat)
    requires s <= Nul(text) && text[s] != 0 && text[s] != QUOTE
    ensures s < p <= Nul(text) && QuotedBytes(text, s) == [ch] + QuotedBytes(text, p)
  {
    p := s;
    if text[p] == BACKSLASH && text[p + 1] == LOWER_X && IsHex(text[p + 2]) {
      ch := HexDigit(text[p + 2]);
      if IsHex(text[p + 3]) {
        ch := ch * 16 + HexDigit(text[p + 3]);
        p := p + 1;
      }
      p := p + 2;
    } else {
      ch := text[p];
    }
    p := p + 1;
  }

  // ----- escapes -----

  /** The first character that t stands for, and how many bytes write it. */
  function FirstChar(t: seq<nat>): (r: (nat, nat))
    requires t != []
    ensures 1 <= r.1 <= |t|
  {
    if |t| >= 3 && t[0] == BACKSLASH && t[1] == LOWER_X && IsHex(t[2]) then
      if |t| >= 4 && IsHex(t[3]) then (HexDigit(t[2]) * 16 + HexDigit(t[3]), 4) else (HexDigit(t[2]), 3)
    else (t[0], 1)
  }

  /** What a string between quotes stands for. */
  function Decode(t: seq<nat>): seq<nat> {
    if t == [] then [] else [FirstChar(t).0] + Decode(t[FirstChar(t).1..])
  }

  lemma QuotedStep(s: Text, p: nat, t: seq<nat>)
    requires t != [] && p + |t| < Nul(s) && s[p + |t|] == QUOTE && QUOTE !in t
    requires forall i | 0 <= i < |t| :: s[p + i] == t[i]
    ensures QuotedBytes(s, p) == [FirstChar(t).0] + QuotedBytes(s, p + FirstChar(t).1)
  {
    assert t[0] in t && s[p + 0] == t[0];
    assert |t| >= 2 ==> s[p + 1] == t[1];
    assert |t| >= 3 ==> s[p + 2] == t[2];
    assert |t| >= 4 ==> s[p + 3] == t[3];
  }

  /** Reading a string stops at its quote with what it stands for. */
  lemma {:induction false} QuotedIsDecoded(s: Text, p: nat, t: seq<nat>)
    requires p + |t| < Nul(s) && s[p + |t|] == QUOTE && QUOTE !in t
    requires forall i | 0 <= i < |t| :: s[p + i] == t[i]
    ensures QuotedBytes(s, p) == Decode(t) + [0]
    decreases |t|
  {
    hide FirstChar;
    if t != [] {
      var n := FirstChar(t).1;
      QuotedStep(s, p, t);
      forall i | 0 <= i < |t[n..]|
        ensures s[p + n + i] == t[n..][i]
      {
        assert s[p + (n + i)] == t[n + i];
      }
      QuotedIsDecoded(s, p + n, t[n..]);
    }
  }

  /** An escape of one digit stands for that digit, one of two for the byte they spell; nothing else is one. */
  lemma {:induction false} Escapes(h: nat, l: nat, rest: seq<nat>)
    requires IsHex(h)
    ensures rest == [] || !IsHex(rest[0]) ==>
              Decode(['\\' as int, 'x' as int, h] + rest) == [HexDigit(h)] + Decode(rest)
    ensures IsHex(l) ==>
              Decode(['\\' as int, 'x' as int, h, l] + rest) == [16 * HexDigit(h) + HexDigit(l)] + Decode(rest)
  {
    hide Decode;
    if rest == [] || !IsHex(rest[0]) {
      OneDigit(h, rest);
      DecodeFirst(['\\' as int, 'x' as int, h] + rest, rest, HexDigit(h), 3);
    }
    if IsHex(l) {
      TwoDigits(h, l, rest);
      DecodeFirst(['\\' as int, 'x' as int, h, l] + rest, rest, 16 * HexDigit(h) + HexDigit(l), 4);
    }
  }

  lemma OneDigit(h: nat, rest: seq<nat>)
    requires IsHex(h) && (rest == [] || !IsHex(rest[0]))
    ensures FirstChar(['\\' as int, 'x' as int, h] + rest) == (HexDigit(h), 3)
  {}

  lemma TwoDigits(h: nat, l: nat, rest: seq<nat>)
    requires IsHex(h) && IsHex(l)
    ensures FirstChar(['\\' as int, 'x' as int, h, l] + rest) == (16 * HexDigit(h) + HexDigit(l), 4)
  {}

  lemma {:induction false} DecodeFirst(t: seq<nat>, rest: seq<nat>, ch: nat, n: nat)
    requires n <= |t| && t[n..] == rest && t != [] && FirstChar(t) == (ch, n)
    ensures Decode(t) == [ch] + Decode(rest)
  {}

  function HexChar(d: nat): (c: nat)
    requires d < 16
    ensures IsHex(c) && HexDigit(c) == d
  {
    if d < 10 then 48 + d else 87 + d
  }

  /** A way to write a byte between quotes: one with a meaning of its own is escaped. */
  function EncodeOne(b: nat): (t: seq<nat>)
    requires b < 256
    ensures t != []
  {
    if b == 0 || b == QUOTE || b == BACKSLASH then [BACKSLASH, LOWER_X, HexChar(b / 16), HexChar(b % 16)] else [b]
  }

  function Encode(bytes: seq<nat>): seq<nat>
    requires forall i | 0 <= i < |bytes| :: bytes[i] < 256
  {
    if bytes == [] then [] else EncodeOne(bytes[0]) + Encode(bytes[1..])
  }

  lemma FirstEncoded(b: nat, rest: seq<nat>)
    requires b < 256
    ensures FirstChar(EncodeOne(b) + rest) == (b, |EncodeOne(b)|)
    ensures QUOTE !in EncodeOne(b) && 0 !in EncodeOne(b)
  {}

  /** So every byte string can be had from a config text. */
  lemma {:induction false} DecodeEncode(bytes: seq<nat>)
    requires forall i | 0 <= i < |bytes| :: bytes[i] < 256
    ensures Decode(Encode(bytes)) == bytes && QUOTE !in Encode(bytes) && 0 !in Encode(bytes)
  {
    hide FirstChar, EncodeOne;
    if bytes != [] {
      var one, rest := EncodeOne(bytes[0]), Encode(bytes[1..]);
      DecodeEncode(bytes[1..]);
      FirstEncoded(bytes[0], rest);
      assert (one + rest)[|one|..] == rest;
    }
  }
}

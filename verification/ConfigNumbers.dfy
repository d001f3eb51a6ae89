/** Numbers in a config text: parse_u64 and its two radices. */
module ConfigNumbers {
  import opened Bits
  import opened ConfigText

  const TWO60: nat := 0x1000_0000_0000_0000

  predicate IsDec(c: nat) { 48 <= c <= 57 }

  predicate IsHex(c: nat) { IsDec(c) || 97 <= c <= 102 || 65 <= c <= 70 }

  function HexDigit(c: nat): (d: nat)
    requires IsHex(c)
    ensures d < 16
  {
    if IsDec(c) then c - 48 else if c >= 97 then c - 97 + 10 else c - 65 + 10
  }

  /** The digits, of either case, and nothing else. */
  lemma HexDigits(c: nat)
    ensures forall d | 0 <= d < 16 ::
              var low, up := "0123456789abcdef"[d] as int, "0123456789ABCDEF"[d] as int;
              IsHex(low) && HexDigit(low) == d && IsHex(up) && HexDigit(up) == d
    ensures IsHex(c) ==> exists d | 0 <= d < 16 ::
                c == "0123456789abcdef"[d] as int || c == "0123456789ABCDEF"[d] as int
    ensures IsDec(c) ==> exists d | 0 <= d < 10 :: c == "0123456789abcdef"[d] as int
    ensures forall d | 0 <= d < 10 :: IsDec("0123456789abcdef"[d] as int)
  {
    if IsHex(c) {
      var d := HexDigit(c);
      assert c == "0123456789abcdef"[d] as int || c == "0123456789ABCDEF"[d] as int;
    }
  }

  const UNDERSCORE: nat := 95
  const MINUS: nat := 45
  const LOWER_X: nat := 120

  /** End of the run of digits and underscores at p. */
  function RunEnd(s: Text, p: nat, hex: bool): (q: nat)
    requires p <= Nul(s)
    ensures p <= q <= Nul(s)
    decreases Nul(s) - p
  {
    if s[p] != 0 && (s[p] == UNDERSCORE || (if hex then IsHex(s[p]) else IsDec(s[p]))) then RunEnd(s, p + 1, hex) else p
  }

  /** The number that the digits in [p, q) continue from acc, in unbounded arithmetic. */
  function Number(s: Text, p: nat, q: nat, hex: bool, acc: nat): nat
    requires p <= q <= Nul(s)
    decreases q - p
  {
    if p == q then acc
    else if hex && IsHex(s[p]) then Number(s, p + 1, q, hex, acc * 16 + HexDigit(s[p]))
    else if !hex && IsDec(s[p]) then Number(s, p + 1, q, hex, acc * 10 + HexDigit(s[p]))
    else Number(s, p + 1, q, hex, acc)
  }

  /** How many digits in [p, q) come after a nonzero one. */
  function LaterDigits(s: Text, p: nat, q: nat, seen: bool): nat
    requires p <= q <= Nul(s)
    decreases q - p
  {
    if p == q then 0
    else if IsDec(s[p]) then (if seen then 1 else 0) + LaterDigits(s, p + 1, q, seen || s[p] != 48)
    else LaterDigits(s, p + 1, q, seen)
  }

  lemma {:induction false} NumberGrows(s: Text, p: nat, q: nat, hex: bool, acc: nat)
    requires p <= q <= Nul(s)
    ensures Number(s, p, q, hex, acc) >= acc
    decreases q - p
  {
    if p < q {
      if hex && IsHex(s[p]) { NumberGrows(s, p + 1, q, hex, acc * 16 + HexDigit(s[p])); }
      else if !hex && IsDec(s[p]) { NumberGrows(s, p + 1, q, hex, acc * 10 + HexDigit(s[p])); }
      else { NumberGrows(s, p + 1, q, hex, acc); }
    }
  }

  // ----- hexadecimal -----

  /** Where parse_u64_hex stops: the end of the run, or the digit that no longer fits. */
  function HexStop(s: Text, p: nat, res: nat): (r: (nat, nat))
    requires p <= Nul(s) && res < W64
    ensures p <= r.1 <= Nul(s) && r.0 < W64
    decreases Nul(s) - p
  {
    if s[p] != 0 && IsHex(s[p]) then
      if res >= TWO60 then (res, p) else HexStop(s, p + 1, res * 16 + HexDigit(s[p]))
    else if s[p] == UNDERSCORE then HexStop(s, p + 1, res)
    else (res, p)
  }

  /** A hexadecimal literal is read to its end exactly if it fits in 64 bits, and then it is its value. */
  lemma {:induction false} HexFits(s: Text, p: nat, res: nat)
    requires p <= Nul(s) && res < W64
    ensures var value := Number(s, p, RunEnd(s, p, true), true, res);
            && (HexStop(s, p, res).1 == RunEnd(s, p, true)) == (value < W64)
            && (value < W64 ==> HexStop(s, p, res).0 == value)
    decreases Nul(s) - p
  {
    var q := RunEnd(s, p, true);
    if s[p] != 0 && IsHex(s[p]) {
      NumberGrows(s, p + 1, q, true, res * 16 + HexDigit(s[p]));
      if res < TWO60 {
        HexFits(s, p + 1, res * 16 + HexDigit(s[p]));
      }
    } else if s[p] == UNDERSCORE {
      HexFits(s, p + 1, res);
    }
  }

  method ParseHex(s: Text, str: nat) returns (output: nat, p: nat)
    requires str <= Nul(s)
    ensures (output, p) == HexStop(s, str, 0)
  {
    output, p := 0, str;
    while s[p] != 0
      invariant str <= p <= Nul(s) && output < W64
      invariant HexStop(s, str, 0) == HexStop(s, p, output)
      decreases Nul(s) - p
    {
      if IsHex(s[p]) {
        Shift4(output);
        if (output * 16) % W64 / 16 != output {
          break;
        }
        output := (output * 16) % W64 + HexDigit(s[p]);
      } else if s[p] != UNDERSCORE {
        break;
      }
      p := p + 1;
    }
  }

  /** `((res << 4) >> 4) == res` tests that the top four bits are clear. */
  lemma Shift4(res: nat)
    requires res < W64
    ensures ((res * 16) % W64 / 16 == res) == (res < TWO60)
    ensures res < TWO60 ==> (res * 16) % W64 == res * 16
  {
    if res >= TWO60 {
      assert (res * 16) % W64 / 16 < TWO60;
    }
  }

  // ----- decimal -----

  /** Where parse_u64_dec stops: do_div yields a remainder, so the overflow test stops the loop at the
    first digit that follows a nonzero one. */
  function DecStop(s: Text, p: nat, res: nat): (r: (nat, nat))
    requires p <= Nul(s) && res < 10
    ensures p <= r.1 <= Nul(s) && r.0 < 10
    decreases Nul(s) - p
  {
    if s[p] != 0 && IsDec(s[p]) then
      if res != 0 then (res, p) else DecStop(s, p + 1, HexDigit(s[p]))
    else if s[p] == UNDERSCORE then DecStop(s, p + 1, res)
    else (res, p)
  }

  /** A decimal literal is read to its end exactly if no digit follows its first nonzero one, that is if it
    is below ten; then it is its value. */
  lemma {:induction false} DecFits(s: Text, p: nat, res: nat)
    requires p <= Nul(s) && res < 10
    ensures var q := RunEnd(s, p, false);
            && (DecStop(s, p, res).1 == q) == (LaterDigits(s, p, q, res != 0) == 0)
            && (DecStop(s, p, res).1 == q) == (Number(s, p, q, false, res) < 10)
            && (DecStop(s, p, res).1 == q ==> DecStop(s, p, res).0 == Number(s, p, q, false, res))
    decreases Nul(s) - p
  {
    var q := RunEnd(s, p, false);
    if s[p] != 0 && IsDec(s[p]) {
      NumberGrows(s, p + 1, q, false, res * 10 + HexDigit(s[p]));
      if res == 0 {
        DecFits(s, p + 1, HexDigit(s[p]));
      }
    } else if s[p] == UNDERSCORE {
      DecFits(s, p + 1, res);
    }
  }

  /** So no decimal literal of two significant digits is accepted: "12" stops behind the 1. */
  lemma DecTwelve()
    ensures var s: Text := [49, 50, 0];
            DecStop(s, 0, 0) == (1, 1) && RunEnd(s, 0, false) == 2
  {
    var s: Text := [49, 50, 0];
    assert RunEnd(s, 2, false) == 2 && RunEnd(s, 1, false) == 2;
    assert DecStop(s, 1, 1) == (1, 1);
  }

  /** do_div(n, 10): n becomes the quotient and the result is the remainder. */
  function DoDivTen(n: nat): nat { n % 10 }

  method ParseDec(s: Text, str: nat) returns (output: nat, p: nat)
    requires str <= Nul(s)
    ensures (output, p) == DecStop(s, str, 0)
  {
    output, p := 0, str;
    while s[p] != 0
      invariant str <= p <= Nul(s) && output < 10
      invariant DecStop(s, str, 0) == DecStop(s, p, output)
      decreases Nul(s) - p
    {
      if IsDec(s[p]) {
        var res10 := (output * 10) % W64;
        if DoDivTen(res10) != output {
          break;
        }
        output := (output * 10) % W64 + HexDigit(s[p]);
      } else if s[p] != UNDERSCORE {
        break;
      }
      p := p + 1;
    }
  }

  /** The value is that of the characters passed, and the next one would be a digit too many. */
  lemma {:induction false} HexPassed(s: Text, p: nat, res: nat)
    requires p <= Nul(s) && res < W64
    ensures var q := HexStop(s, p, res).1;
            && q <= RunEnd(s, p, true) && HexStop(s, p, res).0 == Number(s, p, q, true, res)
            && (q < RunEnd(s, p, true) ==> IsHex(s[q]) && Number(s, p, q + 1, true, res) >= W64)
    decreases Nul(s) - p
  {
    if s[p] != 0 && IsHex(s[p]) {
      if res >= TWO60 {
        assert Number(s, p, p + 1, true, res) == res * 16 + HexDigit(s[p]);
      } else {
        HexPassed(s, p + 1, res * 16 + HexDigit(s[p]));
      }
    } else if s[p] == UNDERSCORE {
      HexPassed(s, p + 1, res);
    }
  }

  lemma {:induction false} DecPassed(s: Text, p: nat, res: nat)
    requires p <= Nul(s) && res < 10
    ensures var q := DecStop(s, p, res).1;
            && q <= RunEnd(s, p, false) && DecStop(s, p, res).0 == Number(s, p, q, false, res)
            && (q < RunEnd(s, p, false) ==> IsDec(s[q]) && Number(s, p, q + 1, false, res) >= 10)
    decreases Nul(s) - p
  {
    if s[p] != 0 && IsDec(s[p]) {
      if res != 0 {
        assert Number(s, p, p + 1, false, res) == res * 10 + HexDigit(s[p]);
      } else {
        DecPassed(s, p + 1, HexDigit(s[p]));
      }
    } else if s[p] == UNDERSCORE {
      DecPassed(s, p + 1, res);
    }
  }

  // ----- either -----

  /** Where the digits of the literal at p start, and whether they are hexadecimal. */
  function Digits(s: Text, p: nat): (r: (nat, bool))
    requires p <= Nul(s)
    ensures p <= r.0 <= Nul(s)
  {
    var q := if s[p] == MINUS then p + 1 else p;
    if s[q] == 48 && s[q + 1] == LOWER_X then (q + 2, true) else (q, false)
  }

  /** The literal at p is read up to the end of its digits exactly if its value fits: in 64 bits if it is
    hexadecimal, below ten if it is not.  Otherwise reading stops at the first digit with which it no
    longer fits.  The result is the value of what was read, negated modulo 2^64 after a minus sign. */
  lemma {:induction false} U64Reads(s: Text, p: nat)
    requires p <= Nul(s)
    ensures var (start, hex) := Digits(s, p);
            var (value, stop) := U64At(s, p);
            var end, limit := RunEnd(s, start, hex), if hex then W64 else 10;
            && start <= stop <= end && (stop == end) == (Number(s, start, end, hex, 0) < limit)
            && (stop < end ==> Number(s, start, stop, hex, 0) < limit <= Number(s, start, stop + 1, hex, 0))
            && (if s[p] == MINUS then (value + Number(s, start, stop, hex, 0)) % W64 == 0
                else value == Number(s, start, stop, hex, 0))
  {
    var (start, hex) := Digits(s, p);
    if hex {
      HexFits(s, start, 0);
      HexPassed(s, start, 0);
    } else {
      DecFits(s, start, 0);
      DecPassed(s, start, 0);
    }
  }

  function U64At(s: Text, p: nat): (r: (nat, nat))
    requires p <= Nul(s)
    ensures p <= r.1 <= Nul(s) && r.0 < W64
  {
    var neg := s[p] == MINUS;
    var q := if neg then p + 1 else p;
    var r := if s[q] == 48 && s[q + 1] == LOWER_X then HexStop(s, q + 2, 0) else DecStop(s, q, 0);
    (if neg && r.0 > 0 then W64 - r.0 else r.0, r.1)
  }

  method ParseU64(s: Text, str: nat) returns (output: nat, p: nat)
    requires str <= Nul(s)
    ensures (output, p) == U64At(s, str)
  {
    p := str;
    var neg := false;
    if s[p] == MINUS {
      p := p + 1;
      neg := true;
    }
    if s[p] == 48 && s[p + 1] == LOWER_X {
      output, p := ParseHex(s, p + 2);
    } else {
      output, p := ParseDec(s, p);
    }
    if neg {
      output := (W64 - output) % W64;
    }
  }
}

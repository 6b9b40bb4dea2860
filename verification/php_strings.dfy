/**
 The PHP string built-ins the warehouse service relies on, written out over
 `seq<char>`: `implode`, `substr($s, 0, -$n)`, the decimal conversion of an
 integer, and `addslashes` together with its inverse `stripslashes`. Each comes
 with an independent reading (a parser, a reader for a quoted literal, a
 join) and the lemma that connects the two.
 */
module PhpStrings {
  import opened Wrappers

  // ---------------------------------------------------------------------------
  // implode, loop-built lists, substr
  // ---------------------------------------------------------------------------

  /** `implode($sep, $items)`: the items in order with `sep` between neighbours. */
  function Implode(sep: string, items: seq<string>): string
  {
    if |items| == 0 then ""
    else if |items| == 1 then items[0]
    else items[0] + sep + Implode(sep, items[1..])
  }

  /** The text a PHP loop accumulates with `$acc .= $item . $term` over `items`. */
  function Terminated(items: seq<string>, term: string): string
  {
    if |items| == 0 then ""
    else Terminated(items[..|items| - 1], term) + items[|items| - 1] + term
  }

  /** `substr($s, 0, -$n)`: everything but the last `n` characters, and the
      empty string when `s` is shorter than `n`. With `n = 0` the length is
      `-0`, that is `0`, so the result is empty too. */
  function DropTail(s: string, n: nat): (r: string)
    ensures r <= s
    ensures |r| == if n > 0 && |s| >= n then |s| - n else 0
  {
    if n > 0 && |s| >= n then s[..|s| - n] else ""
  }

  lemma {:induction false} ImplodeSnoc(sep: string, items: seq<string>, x: string)
    requires |items| > 0
    ensures Implode(sep, items + [x]) == Implode(sep, items) + sep + x
    decreases |items|
  {
    if |items| == 1 {
      assert items + [x] == [items[0], x];
      assert [items[0], x][1..] == [x];
    } else {
      assert (items + [x])[1..] == items[1..] + [x];
      ImplodeSnoc(sep, items[1..], x);
    }
  }

  /** A non-empty loop-built list is the `implode` of its items plus one trailing terminator. */
  lemma {:induction false} TerminatedIsImplode(items: seq<string>, term: string)
    requires |items| > 0
    ensures Terminated(items, term) == Implode(term, items) + term
    decreases |items|
  {
    var n := |items|;
    var init := items[..n - 1];
    if n == 1 {
      assert Terminated(init, term) == "";
    } else {
      TerminatedIsImplode(init, term);
      ImplodeSnoc(term, init, items[n - 1]);
      assert init + [items[n - 1]] == items;
    }
  }

  /** Accumulating `item . term` and then cutting `|term|` characters off the
      end yields exactly the `implode` of the items, for every list including
      the empty one: exactly one trailing terminator is removed. The
      terminator is non-empty, as the `,` and ` AND ` the service uses are. */
  lemma DropTerminator(items: seq<string>, term: string)
    requires term != ""
    ensures DropTail(Terminated(items, term), |term|) == Implode(term, items)
  {
    if |items| > 0 {
      TerminatedIsImplode(items, term);
      var s := Implode(term, items) + term;
      assert s[..|s| - |term|] == Implode(term, items);
    }
  }

  // ---------------------------------------------------------------------------
  // Decimal text of integers (PHP's integer-to-string conversion)
  // ---------------------------------------------------------------------------

  predicate IsDigit(c: char)
  {
    '0' <= c <= '9'
  }

  predicate AllDigits(s: string)
  {
    forall i :: 0 <= i < |s| ==> IsDigit(s[i])
  }

  function DigitChar(d: nat): (c: char)
    requires d < 10
    ensures IsDigit(c) && c as int - '0' as int == d
  {
    ('0' as int + d) as char
  }

  function DigitValue(c: char): nat
    requires IsDigit(c)
  {
    c as int - '0' as int
  }

  /** The decimal digits of `n`, most significant first, without leading zeros. */
  function NatToDecimal(n: nat): (s: string)
    ensures |s| > 0 && AllDigits(s)
    ensures n > 0 ==> s[0] != '0'
  {
    if n < 10 then [DigitChar(n)] else NatToDecimal(n / 10) + [DigitChar(n % 10)]
  }

  /** PHP's `(string)$i` for an integer: an optional minus sign and the decimal digits. */
  function IntToDecimal(i: int): string
  {
    if i < 0 then "-" + NatToDecimal(-i) else NatToDecimal(i)
  }

  /** The number a string of decimal digits denotes. */
  function DigitsValue(s: string): nat
    requires AllDigits(s)
  {
    if |s| == 0 then 0 else DigitsValue(s[..|s| - 1]) * 10 + DigitValue(s[|s| - 1])
  }

  /** Reads an integer literal: an optional `-` followed by at least one digit. */
  function ParseInt(s: string): Option<int>
  {
    if |s| > 1 && s[0] == '-' && AllDigits(s[1..]) then Some(-(DigitsValue(s[1..]) as int))
    else if |s| > 0 && AllDigits(s) then Some(DigitsValue(s))
    else None
  }

  lemma {:induction false} NatDecimalRoundTrip(n: nat)
    ensures DigitsValue(NatToDecimal(n)) == n
  {
    if n >= 10 {
      NatDecimalRoundTrip(n / 10);
      var s := NatToDecimal(n);
      assert s[..|s| - 1] == NatToDecimal(n / 10);
    }
  }

  /** The decimal text PHP prints for an integer reads back as that integer. */
  lemma IntDecimalRoundTrip(i: int)
    ensures ParseInt(IntToDecimal(i)) == Some(i)
  {
    if i < 0 {
      NatDecimalRoundTrip(-i);
      assert IntToDecimal(i)[1..] == NatToDecimal(-i);
    } else {
      NatDecimalRoundTrip(i);
    }
  }

  // ---------------------------------------------------------------------------
  // addslashes / stripslashes and the single-quoted literal
  // ---------------------------------------------------------------------------

  /** The characters `addslashes` escapes: single quote, double quote, backslash and NUL. */
  predicate NeedsSlash(c: char)
  {
    c == '\'' || c == '"' || c == '\\' || c == '\0'
  }

  /** One character through `addslashes`: NUL becomes backslash-zero, the other
      special characters get a backslash in front, the rest are kept. */
  function Slashed(c: char): string
  {
    if c == '\0' then "\\0"
    else if NeedsSlash(c) then ['\\', c]
    else [c]
  }

  /** PHP's `addslashes`. */
  function AddSlashes(s: string): (r: string)
    ensures |r| >= |s|
    ensures (forall i :: 0 <= i < |s| ==> !NeedsSlash(s[i])) ==> r == s
  {
    if |s| == 0 then "" else Slashed(s[0]) + AddSlashes(s[1..])
  }

  /** The character an escape sequence `\c` stands for: `\0` is NUL, any other `\c` is `c`. */
  function Unslash(c: char): char
  {
    if c == '0' then '\0' else c
  }

  /** PHP's `stripslashes`: each backslash is removed and the character after it
      is kept (`\0` turning back into NUL); a lone backslash at the end is dropped. */
  function StripSlashes(s: string): string
    decreases |s|
  {
    if |s| == 0 then ""
    else if s[0] == '\\' then (if |s| == 1 then "" else [Unslash(s[1])] + StripSlashes(s[2..]))
    else [s[0]] + StripSlashes(s[1..])
  }

  lemma {:induction false} StripAddSlashes(s: string)
    ensures StripSlashes(AddSlashes(s)) == s
  {
    if |s| > 0 {
      var c, t := s[0], AddSlashes(s[1..]);
      var u := Slashed(c) + t;
      StripAddSlashes(s[1..]);
      if NeedsSlash(c) {
        assert u[2..] == t;
      } else {
        assert u[1..] == t;
      }
      assert s == [c] + s[1..];
    }
  }

  /** The single-quoted literal the service writes for a string: `'` . addslashes(s) . `'`. */
  function Quote(s: string): string
  {
    "'" + AddSlashes(s) + "'"
  }

  /** Reads the body of a single-quoted literal in which a backslash escapes the
      next character: returns the denoted text and what follows the first
      unescaped quote, or None when the text ends before one. */
  function ReadQuoted(t: string): Option<(string, string)>
    decreases |t|
  {
    if |t| == 0 then None
    else if t[0] == '\'' then Some(("", t[1..]))
    else if t[0] == '\\' then
      if |t| == 1 then None
      else match ReadQuoted(t[2..])
        case None => None
        case Some(p) => Some(([Unslash(t[1])] + p.0, p.1))
    else match ReadQuoted(t[1..])
      case None => None
      case Some(p) => Some(([t[0]] + p.0, p.1))
  }

  /** Reads one single-quoted literal at the start of `t`. */
  function ReadLiteral(t: string): Option<(string, string)>
  {
    if |t| > 0 && t[0] == '\'' then ReadQuoted(t[1..]) else None
  }

  lemma {:induction false} ReadQuotedSlashed(s: string, rest: string)
    ensures ReadQuoted(AddSlashes(s) + "'" + rest) == Some((s, rest))
  {
    if |s| == 0 {
      assert AddSlashes(s) + "'" + rest == "'" + rest;
      assert ("'" + rest)[1..] == rest;
    } else {
      var c := s[0];
      var u := AddSlashes(s[1..]) + "'" + rest;
      ReadQuotedSlashed(s[1..], rest);
      assert AddSlashes(s) + "'" + rest == Slashed(c) + u;
      var t := Slashed(c) + u;
      if NeedsSlash(c) {
        assert t[0] == '\\' && t[2..] == u;
      } else {
        assert t[0] == c && t[1..] == u;
      }
      assert [c] + s[1..] == s;
    }
  }

  /** A quoted string is one literal that ends exactly at its own closing quote
      (no quote inside it is left unescaped) and denotes the original text. */
  lemma QuoteReadsBack(s: string, rest: string)
    ensures ReadLiteral(Quote(s) + rest) == Some((s, rest))
  {
    ReadQuotedSlashed(s, rest);
    assert (Quote(s) + rest)[1..] == AddSlashes(s) + "'" + rest;
  }
}

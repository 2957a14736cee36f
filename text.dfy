/** The JavaScript string operations the OBJ parser relies on: `trim`,
    `split` on one character, `split(/\s+/)` and `parseInt(s, 10)`.
    Characters are Unicode scalar values; JavaScript's UTF-16 code units agree
    with them on every character these operations look at. */
module Text {
  import opened Wrappers

  /** The characters JavaScript's `\s` matches and `trim` removes: the
      WhiteSpace and LineTerminator classes of ECMAScript (tab, line tab, form
      feed, space, no-break space, byte-order mark, the space separators of
      Unicode, line feed, carriage return, line and paragraph separators). */
  predicate IsSpace(c: char)
  {
    var n := c as int;
    n == 0x09 || n == 0x0A || n == 0x0B || n == 0x0C || n == 0x0D || n == 0x20 ||
    n == 0xA0 || n == 0x1680 || (0x2000 <= n <= 0x200A) || n == 0x2028 || n == 0x2029 ||
    n == 0x202F || n == 0x205F || n == 0x3000 || n == 0xFEFF
  }

  predicate NoSpace(s: string)
  {
    forall i :: 0 <= i < |s| ==> !IsSpace(s[i])
  }

  /** The number of whitespace characters `s` starts with. */
  function LeadingSpaces(s: string): (n: nat)
    ensures n <= |s|
    ensures forall i :: 0 <= i < n ==> IsSpace(s[i])
    ensures n < |s| ==> !IsSpace(s[n])
  {
    if |s| > 0 && IsSpace(s[0]) then 1 + LeadingSpaces(s[1..]) else 0
  }

  /** `s.trimStart()`: `s` without its leading whitespace. */
  function TrimStart(s: string): string
  {
    s[LeadingSpaces(s)..]
  }

  /** `s.trimEnd()`: the longest prefix of `s` that does not end with whitespace. */
  function TrimEnd(s: string): (r: string)
    ensures |r| <= |s| && r == s[..|r|]
    ensures forall i :: |r| <= i < |s| ==> IsSpace(s[i])
    ensures |r| > 0 ==> !IsSpace(r[|r| - 1])
  {
    if |s| > 0 && IsSpace(s[|s| - 1]) then TrimEnd(s[..|s| - 1]) else s
  }

  /** `s.trim()`: `s` without its leading and trailing whitespace; it is the
      stretch of `s` that starts where TrimStart stops. */
  function Trim(s: string): (r: string)
    ensures |r| > 0 ==> !IsSpace(r[0]) && !IsSpace(r[|r| - 1])
    ensures var i := LeadingSpaces(s); i + |r| <= |s| && r == s[i..i + |r|]
  {
    var t := TrimStart(s);
    var r := TrimEnd(t);
    assert |r| > 0 ==> r[0] == t[0];
    r
  }

  /** Trim removes nothing but whitespace. */
  lemma TrimDropsOnlySpaces(s: string, k: nat)
    requires k < |s|
    requires var i := LeadingSpaces(s); k < i || i + |Trim(s)| <= k
    ensures IsSpace(s[k])
  {
    var t := TrimStart(s);
    var i := LeadingSpaces(s);
    if k >= i {
      assert s[k] == t[k - i];
    }
  }

  /** `s.split(d)` for a one-character separator `d`: the pieces between the
      occurrences of `d`, in order, empty pieces included. */
  function SplitOn(s: string, d: char): (r: seq<string>)
    ensures |r| >= 1
    ensures forall k :: 0 <= k < |r| ==> d !in r[k]
    ensures r[0] <= s && (|r[0]| == |s| || s[|r[0]|] == d)
  {
    if |s| == 0 then [""]
    else
      var rest := SplitOn(s[1..], d);
      if s[0] == d then [""] + rest else [[s[0]] + rest[0]] + rest[1..]
  }

  /** `pieces.join(d)`, the inverse of SplitOn. */
  function Join(pieces: seq<string>, d: char): string
    requires |pieces| >= 1
  {
    if |pieces| == 1 then pieces[0] else pieces[0] + [d] + Join(pieces[1..], d)
  }

  /** Splitting loses nothing: joining the pieces with the separator gives
      the text back. */
  lemma {:induction false} JoinSplitOn(s: string, d: char)
    ensures Join(SplitOn(s, d), d) == s
  {
    if |s| > 0 {
      var rest := SplitOn(s[1..], d);
      JoinSplitOn(s[1..], d);
      if s[0] == d {
        assert SplitOn(s, d)[1..] == rest;
      } else if |rest| == 1 {
        assert Join(SplitOn(s, d), d) == [s[0]] + rest[0];
      } else {
        var r := SplitOn(s, d);
        assert r[1..] == rest[1..];
        assert Join(rest, d) == rest[0] + [d] + Join(rest[1..], d);
        assert Join(r, d) == [s[0]] + rest[0] + [d] + Join(rest[1..], d);
      }
    }
  }

  /** `s.split(/\s+/)`: the pieces between maximal runs of whitespace, with
      an empty first (last) piece when `s` starts (ends) with whitespace. */
  function SplitSpaces(s: string): (r: seq<string>)
    ensures |r| >= 1
    ensures forall k :: 0 <= k < |r| ==> NoSpace(r[k])
    ensures r[0] <= s && (|r[0]| == |s| || IsSpace(s[|r[0]|]))
  {
    if |s| == 0 then [""]
    else
      var rest := SplitSpaces(s[1..]);
      if !IsSpace(s[0]) then [[s[0]] + rest[0]] + rest[1..]
      else if |s| > 1 && IsSpace(s[1]) then rest
      else [""] + rest
  }

  /** `s` with every maximal run of whitespace replaced by one space: each
      whitespace character is dropped when whitespace follows it and becomes
      a space otherwise. */
  function Squeeze(s: string): (r: string)
    ensures |r| <= |s|
  {
    if |s| == 0 then ""
    else
      var c := if !IsSpace(s[0]) then [s[0]] else if |s| > 1 && IsSpace(s[1]) then "" else " ";
      c + Squeeze(s[1..])
  }

  /** Splitting on whitespace keeps every other character, in order: joining
      the pieces with single spaces gives the text with its whitespace runs
      squeezed. */
  lemma {:induction false} JoinSplitSpaces(s: string)
    ensures Join(SplitSpaces(s), ' ') == Squeeze(s)
  {
    if |s| > 0 {
      var rest := SplitSpaces(s[1..]);
      var r := SplitSpaces(s);
      JoinSplitSpaces(s[1..]);
      if !IsSpace(s[0]) {
        if |rest| == 1 {
          assert Join(r, ' ') == [s[0]] + rest[0];
        } else {
          assert r[1..] == rest[1..];
          assert Join(rest, ' ') == rest[0] + [' '] + Join(rest[1..], ' ');
          assert Join(r, ' ') == [s[0]] + rest[0] + [' '] + Join(rest[1..], ' ');
        }
      } else if !(|s| > 1 && IsSpace(s[1])) {
        assert r[1..] == rest;
      }
    }
  }

  /** On text with no whitespace at either end (a trimmed line), every piece
      is a non-empty word. */
  lemma {:induction false} SplitSpacesWords(s: string)
    requires |s| > 0 && !IsSpace(s[0]) && !IsSpace(s[|s| - 1])
    ensures forall k :: 0 <= k < |SplitSpaces(s)| ==> |SplitSpaces(s)[k]| > 0
  {
    InnerPiecesNonEmpty(s);
  }

  lemma {:induction false} InnerPiecesNonEmpty(s: string)
    requires |s| > 0 && !IsSpace(s[|s| - 1])
    ensures forall k :: 1 <= k < |SplitSpaces(s)| ==> |SplitSpaces(s)[k]| > 0
  {
    var t := s[1..];
    if |t| > 0 {
      assert t[|t| - 1] == s[|s| - 1];
      InnerPiecesNonEmpty(t);
      var rest := SplitSpaces(t);
      if IsSpace(s[0]) && !IsSpace(s[1]) {
        assert |rest[0]| > 0;
      }
    }
  }

  predicate IsDigit(c: char)
  {
    '0' <= c <= '9'
  }

  predicate AllDigits(s: string)
  {
    forall i :: 0 <= i < |s| ==> IsDigit(s[i])
  }

  /** The longest prefix of `s` made of decimal digits. */
  function DigitPrefix(s: string): (r: string)
    ensures r <= s && AllDigits(r)
    ensures |r| == |s| || !IsDigit(s[|r|])
  {
    if |s| > 0 && IsDigit(s[0]) then [s[0]] + DigitPrefix(s[1..]) else ""
  }

  /** The value of a string of decimal digits, most significant first. */
  function DigitsValue(ds: string): nat
    requires AllDigits(ds)
  {
    if |ds| == 0 then 0 else 10 * DigitsValue(ds[..|ds| - 1]) + (ds[|ds| - 1] as int - '0' as int)
  }

  /** `parseInt(s, 10)`: skip leading whitespace, read an optional sign and
      the longest run of decimal digits after it. None stands for NaN, the
      result when no digit follows. */
  function ParseInt(s: string): (r: Option<int>)
    ensures var u := Unsigned(TrimStart(s)); r.Some? <==> |u| > 0 && IsDigit(u[0])
    ensures r.Some? && r.value < 0 ==> |TrimStart(s)| > 0 && TrimStart(s)[0] == '-'
  {
    var t := TrimStart(s);
    var ds := DigitPrefix(Unsigned(t));
    var v: int := if |ds| == 0 then 0 else DigitsValue(ds);
    if |ds| == 0 then None
    else if |t| > 0 && t[0] == '-' then Some(-v)
    else Some(v)
  }

  /** `t` without a leading `+` or `-`. */
  function Unsigned(t: string): string
  {
    if |t| > 0 && (t[0] == '-' || t[0] == '+') then t[1..] else t
  }

  /** The decimal numeral of `n` with no leading zeros: the well-formed
      tokens ParseInt is meant for. */
  function ShowNat(n: nat): (r: string)
    ensures |r| > 0 && AllDigits(r) && DigitsValue(r) == n
  {
    var d := ['0' + (n % 10) as char];
    if n < 10 then d
    else
      var r := ShowNat(n / 10) + d;
      assert r[..|r| - 1] == ShowNat(n / 10);
      r
  }

  function ShowInt(n: int): string
  {
    if n < 0 then "-" + ShowNat(-n) else ShowNat(n)
  }

  /** ParseInt reads every well-formed signed decimal numeral back. */
  lemma ParseIntShowInt(n: int)
    ensures ParseInt(ShowInt(n)) == Some(n)
  {
    var s := ShowInt(n);
    var m := if n < 0 then -n else n;
    var ds := ShowNat(m);
    assert TrimStart(s) == s;
    assert Unsigned(s) == ds;
    AllDigitsPrefix(ds);
  }

  lemma {:induction false} AllDigitsPrefix(s: string)
    requires AllDigits(s)
    ensures DigitPrefix(s) == s
  {
    if |s| > 0 {
      AllDigitsPrefix(s[1..]);
    }
  }
}

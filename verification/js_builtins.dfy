/** The JavaScript built-ins the data source leans on, stated over
    `string` (a sequence of UTF-16 code units in JavaScript; a sequence of
    `char` here):

    - `String.prototype.split` with a one-character separator, and the
      `pop()` of its last piece;
    - `parseInt(s, 10)`, after the algorithm of section 19.2.5 of the
      ECMAScript Language Specification, with NaN as `None`;
    - the decimal rendering of an integral `number` that a template
      literal such as `${q.storyId}` performs. */
module JsBuiltins {
  import opened Wrappers

  // ---------------------------------------------------------------------
  // split / join
  // ---------------------------------------------------------------------

  /** `parts.join(sep)` */
  function Join(parts: seq<string>, sep: char): string
  {
    if |parts| == 0 then ""
    else if |parts| == 1 then parts[0]
    else parts[0] + [sep] + Join(parts[1..], sep)
  }

  /** `s.split(sep)`: the maximal separator-free pieces of `s`, in order.
      Splitting the empty string yields one empty piece, and a leading or
      trailing separator yields an empty first or last piece. */
  function Split(s: string, sep: char): (parts: seq<string>)
    ensures |parts| >= 1
    decreases |s|
  {
    if |s| == 0 then [""]
    else
      var rest := Split(s[1..], sep);
      if s[0] == sep then [""] + rest
      else [[s[0]] + rest[0]] + rest[1..]
  }

  /** The pieces of `s.split(sep)` hold no separator and join back to `s`. */
  lemma {:induction false} SplitJoinsBack(s: string, sep: char)
    ensures forall i :: 0 <= i < |Split(s, sep)| ==> sep !in Split(s, sep)[i]
    ensures Join(Split(s, sep), sep) == s
    decreases |s|
  {
    if |s| > 0 {
      var rest := Split(s[1..], sep);
      SplitJoinsBack(s[1..], sep);
      assert s == [s[0]] + s[1..];
      if s[0] == sep {
        assert ([""] + rest)[1..] == rest;
      } else {
        var parts := [[s[0]] + rest[0]] + rest[1..];
        assert parts[1..] == rest[1..];
        assert |rest| > 1 ==> Join(rest, sep) == rest[0] + [sep] + Join(rest[1..], sep);
        assert forall i :: 1 <= i < |parts| ==> parts[i] == rest[i];
      }
    }
  }

  /** `s.split('/').pop()`: the last piece of `s` split at `/` */
  function LastSegment(s: string): string
  {
    var parts := Split(s, '/');
    parts[|parts| - 1]
  }

  /** Joining a sequence of two or more pieces ends with the separator
      followed by its last piece. */
  lemma {:induction false} JoinEndsWithLast(parts: seq<string>, sep: char)
    requires |parts| >= 2
    ensures Join(parts, sep) == Join(parts[..|parts| - 1], sep) + [sep] + parts[|parts| - 1]
    decreases |parts|
  {
    if |parts| == 2 {
      assert parts[..1] == [parts[0]];
    } else {
      var tail := parts[1..];
      JoinEndsWithLast(tail, sep);
      assert tail[..|tail| - 1] == parts[..|parts| - 1][1..];
      assert tail[|tail| - 1] == parts[|parts| - 1];
    }
  }

  /** The last segment is the text after the last `/` of `s`: it holds no
      `/`, it ends `s`, and it is either all of `s` or preceded by `/`. */
  lemma LastSegmentIsTextAfterLastSlash(s: string)
    ensures '/' !in LastSegment(s)
    ensures |LastSegment(s)| <= |s|
    ensures s[|s| - |LastSegment(s)|..] == LastSegment(s)
    ensures |LastSegment(s)| < |s| ==> s[|s| - |LastSegment(s)| - 1] == '/'
  {
    var parts := Split(s, '/');
    var seg := parts[|parts| - 1];
    SplitJoinsBack(s, '/');
    if |parts| >= 2 {
      JoinEndsWithLast(parts, '/');
      var front := Join(parts[..|parts| - 1], '/');
      assert s == front + ['/'] + seg;
      assert s[|s| - |seg|..] == seg;
      assert s[|s| - |seg| - 1] == '/';
    }
  }

  /** Splitting `a ++ t` where `a` holds no separator glues `a` onto the
      first piece of `t`. */
  lemma {:induction false} SplitPrefixFree(a: string, t: string, sep: char)
    requires sep !in a
    ensures Split(a + t, sep) == [a + Split(t, sep)[0]] + Split(t, sep)[1..]
    decreases |a|
  {
    var pt := Split(t, sep);
    if |a| == 0 {
      assert a + t == t;
      assert a + pt[0] == pt[0];
      assert [pt[0]] + pt[1..] == pt;
    } else {
      var a' := a[1..];
      var s := a + t;
      assert s[1..] == a' + t;
      assert s[0] == a[0] && a[0] != sep;
      SplitPrefixFree(a', t, sep);
      var rest := Split(s[1..], sep);
      assert rest == [a' + pt[0]] + pt[1..];
      assert Split(s, sep) == [[s[0]] + rest[0]] + rest[1..];
      assert [a[0]] + (a' + pt[0]) == a + pt[0];
    }
  }

  /** Split undoes Join on separator-free pieces: the other half of the
      round trip stated in Split's contract. */
  lemma {:induction false} SplitJoin(parts: seq<string>, sep: char)
    requires |parts| >= 1
    requires forall i :: 0 <= i < |parts| ==> sep !in parts[i]
    ensures Split(Join(parts, sep), sep) == parts
    decreases |parts|
  {
    if |parts| == 1 {
      SplitPrefixFree(parts[0], "", sep);
      assert parts[0] + "" == parts[0];
    } else {
      var rest := parts[1..];
      SplitJoin(rest, sep);
      var t := [sep] + Join(rest, sep);
      assert Join(parts, sep) == parts[0] + t;
      assert t[1..] == Join(rest, sep);
      assert Split(t, sep) == [""] + rest;
      SplitPrefixFree(parts[0], t, sep);
      assert parts[0] + "" == parts[0];
      assert ([""] + rest)[1..] == rest;
    }
  }

  /** The last segment of `prefix ++ "/" ++ seg` is `seg` whenever `seg`
      holds no `/`, whatever the prefix holds. */
  lemma LastSegmentAfterSlash(prefix: string, seg: string)
    requires '/' !in seg
    ensures LastSegment(prefix + "/" + seg) == seg
  {
    var s := prefix + "/" + seg;
    LastSegmentIsTextAfterLastSlash(s);
    var last := LastSegment(s);
    assert s[|s| - |seg| - 1] == '/';
    assert |last| == |seg|;
    assert s[|s| - |seg|..] == seg;
  }

  // ---------------------------------------------------------------------
  // parseInt(s, 10)
  // ---------------------------------------------------------------------

  /** The WhiteSpace and LineTerminator code points that parseInt skips
      before the number (sections 12.2 and 12.3 of ECMAScript). */
  predicate IsWhiteSpace(c: char)
  {
    || c == '\t' || c == '\n' || c == '\U{000B}' || c == '\U{000C}' || c == '\r'
    || c == ' ' || c == '\U{00A0}' || c == '\U{1680}'
    || ('\U{2000}' <= c <= '\U{200A}')
    || c == '\U{2028}' || c == '\U{2029}' || c == '\U{202F}' || c == '\U{205F}'
    || c == '\U{3000}' || c == '\U{FEFF}'
  }

  predicate IsDigit(c: char)
  {
    '0' <= c <= '9'
  }

  predicate AllDigits(s: string)
  {
    forall i :: 0 <= i < |s| ==> IsDigit(s[i])
  }

  function DigitValue(c: char): (d: nat)
    requires IsDigit(c)
    ensures d < 10
  {
    (c as int) - ('0' as int)
  }

  function DigitChar(d: nat): (c: char)
    requires d < 10
    ensures IsDigit(c) && DigitValue(c) == d
  {
    ('0' as int + d) as char
  }

  /** The value of a string of decimal digits, most significant first */
  function DigitsValue(ds: string): nat
    requires AllDigits(ds)
  {
    if |ds| == 0 then 0
    else DigitsValue(ds[..|ds| - 1]) * 10 + DigitValue(ds[|ds| - 1])
  }

  /** TrimString(s, start): `s` without its leading white space */
  function TrimStart(s: string): string
  {
    if |s| > 0 && IsWhiteSpace(s[0]) then TrimStart(s[1..]) else s
  }

  /** TrimStart removes a prefix of `s` made of white space only, and
      what remains does not start with white space. */
  lemma {:induction false} TrimStartIsSuffix(s: string)
    ensures |TrimStart(s)| <= |s| && TrimStart(s) == s[|s| - |TrimStart(s)|..]
    ensures forall i :: 0 <= i < |s| - |TrimStart(s)| ==> IsWhiteSpace(s[i])
    ensures |TrimStart(s)| > 0 ==> !IsWhiteSpace(TrimStart(s)[0])
    decreases |s|
  {
    if |s| > 0 && IsWhiteSpace(s[0]) {
      TrimStartIsSuffix(s[1..]);
    }
  }

  /** The longest prefix of `s` made of decimal digits */
  function DigitPrefix(s: string): (d: string)
    ensures |d| <= |s| && AllDigits(d)
  {
    if |s| > 0 && IsDigit(s[0]) then
      var rest := DigitPrefix(s[1..]);
      assert ([s[0]] + rest)[1..] == rest;
      [s[0]] + rest
    else ""
  }

  /** DigitPrefix is a prefix of `s`, and the character after it, if any,
      is not a digit. */
  lemma {:induction false} DigitPrefixIsLongestRun(s: string)
    ensures DigitPrefix(s) == s[..|DigitPrefix(s)|]
    ensures |DigitPrefix(s)| < |s| ==> !IsDigit(s[|DigitPrefix(s)|])
    decreases |s|
  {
    if |s| > 0 && IsDigit(s[0]) {
      DigitPrefixIsLongestRun(s[1..]);
      var rest := DigitPrefix(s[1..]);
      assert s[1..][..|rest|] == s[1..|rest| + 1];
      assert |rest| < |s| - 1 ==> s[1..][|rest|] == s[|rest| + 1];
    }
  }

  /** The value of the digit run that starts `u`, or NaN when `u` does
      not start with a digit */
  function ParseDigits(u: string): Option<int>
  {
    var digits := DigitPrefix(u);
    if |digits| == 0 then None else Some(DigitsValue(digits))
  }

  /** The signed number at the start of `t`: one optional sign, then the
      digit run */
  function ParseSigned(t: string): Option<int>
  {
    if |t| > 0 && t[0] == '-' then
      match ParseDigits(t[1..])
      case None => None
      case Some(v) => Some(-v)
    else if |t| > 0 && t[0] == '+' then ParseDigits(t[1..])
    else ParseDigits(t)
  }

  /** `parseInt(s, 10)`, with `None` for NaN: skip leading white space,
      read one optional sign, then the longest run of decimal digits;
      no digits at all gives NaN, and whatever follows the run is ignored. */
  function ParseInt(s: string): Option<int>
  {
    ParseSigned(TrimStart(s))
  }

  // ---------------------------------------------------------------------
  // Number-to-string of an integral number
  // ---------------------------------------------------------------------

  /** The shortest decimal digits of `n` (no leading zero but for 0 itself) */
  function NaturalDigits(n: nat): (ds: string)
    ensures |ds| >= 1 && AllDigits(ds)
    ensures DigitsValue(ds) == n
    ensures |ds| > 1 ==> ds[0] != '0'
  {
    if n < 10 then [DigitChar(n)]
    else
      var front := NaturalDigits(n / 10);
      var ds := front + [DigitChar(n % 10)];
      assert ds[..|ds| - 1] == front;
      ds
  }

  /** `${n}` for an integral `number` n: a minus sign for negatives, then
      the decimal digits of its magnitude. It is never empty and starts
      with a minus sign exactly when n is negative; parseInt reads it back
      (ParseIntOfIntToString). */
  function IntToString(n: int): (r: string)
    ensures |r| >= 1
    ensures r[0] == '-' <==> n < 0
  {
    if n < 0 then "-" + NaturalDigits(-n) else NaturalDigits(n)
  }

  /** The rendering of an integer is an optional minus sign and digits:
      in particular it holds no `/` and no white space. */
  lemma IntToStringShape(n: int)
    ensures |IntToString(n)| >= 1
    ensures IntToString(n)[0] == '-' || IsDigit(IntToString(n)[0])
    ensures forall i :: 1 <= i < |IntToString(n)| ==> IsDigit(IntToString(n)[i])
    ensures '/' !in IntToString(n)
  {
    var ds := NaturalDigits(if n < 0 then -n else n);
    if n < 0 {
      assert forall i :: 1 <= i < |IntToString(n)| ==> IntToString(n)[i] == ds[i - 1];
    }
    assert IntToString(n)[0] != '/';
  }

  lemma {:induction false} TrimStartSkipsWhiteSpace(ws: string, x: string)
    requires forall i :: 0 <= i < |ws| ==> IsWhiteSpace(ws[i])
    requires |x| > 0 && !IsWhiteSpace(x[0])
    ensures TrimStart(ws + x) == x
    decreases |ws|
  {
    if |ws| > 0 {
      assert (ws + x)[1..] == ws[1..] + x;
      TrimStartSkipsWhiteSpace(ws[1..], x);
    } else {
      assert ws + x == x;
    }
  }

  lemma {:induction false} DigitPrefixOfDigits(ds: string, tail: string)
    requires AllDigits(ds)
    requires |tail| == 0 || !IsDigit(tail[0])
    ensures DigitPrefix(ds + tail) == ds
    decreases |ds|
  {
    if |ds| > 0 {
      assert (ds + tail)[1..] == ds[1..] + tail;
      DigitPrefixOfDigits(ds[1..], tail);
      assert ds == [ds[0]] + ds[1..];
    } else {
      assert ds + tail == tail;
    }
  }

  /** A run of digits followed by a non-digit (or nothing) reads as the
      run's value. */
  lemma ParseDigitsOfDigits(ds: string, tail: string)
    requires |ds| > 0 && AllDigits(ds)
    requires |tail| == 0 || !IsDigit(tail[0])
    ensures ParseDigits(ds + tail) == Some(DigitsValue(ds))
  {
    DigitPrefixOfDigits(ds, tail);
  }

  /** The value of a digit run under an optional sign */
  function SignedValue(sign: string, ds: string): int
    requires AllDigits(ds)
  {
    if sign == "-" then -(DigitsValue(ds) as int) else DigitsValue(ds)
  }

  /** One optional sign, then a digit run: a minus sign negates the run's
      value, a plus sign or no sign keeps it. */
  lemma ParseSignedOfSignedDigits(sign: string, ds: string, tail: string)
    requires sign == "" || sign == "+" || sign == "-"
    requires |ds| > 0 && AllDigits(ds)
    requires |tail| == 0 || !IsDigit(tail[0])
    ensures ParseSigned(sign + ds + tail) == Some(SignedValue(sign, ds))
  {
    var u := ds + tail;
    assert sign + ds + tail == sign + u;
    assert u[0] == ds[0];
    ParseDigitsOfDigits(ds, tail);
    if sign == "" {
      assert sign + u == u;
    } else {
      SignAhead(sign, u);
    }
  }

  /** A sign in front of text that starts with a digit is read as a sign */
  lemma SignAhead(sign: string, u: string)
    requires sign == "+" || sign == "-"
    requires |u| > 0 && IsDigit(u[0])
    ensures ParseSigned(sign + u) ==
      if sign == "-" then (match ParseDigits(u) case None => None case Some(v) => Some(-v))
      else ParseDigits(u)
  {
    var t := sign + u;
    assert t[0] == sign[0];
    assert t[1..] == u;
  }

  /** `parseInt(s, 10)` in general: white space, an optional sign, a
      non-empty run of digits (leading zeros allowed), then anything that
      does not start with a digit, reads as the signed value of the run. */
  lemma ParseIntOfSignedDigits(ws: string, sign: string, ds: string, tail: string)
    requires forall i :: 0 <= i < |ws| ==> IsWhiteSpace(ws[i])
    requires sign == "" || sign == "+" || sign == "-"
    requires |ds| > 0 && AllDigits(ds)
    requires |tail| == 0 || !IsDigit(tail[0])
    ensures ParseInt(ws + sign + ds + tail) == Some(SignedValue(sign, ds))
  {
    var x := sign + ds + tail;
    assert ws + sign + ds + tail == ws + x;
    assert TrimStart(ws + x) == x by {
      assert x[0] == (if sign == "" then ds[0] else sign[0]);
      assert !IsWhiteSpace(x[0]);
      TrimStartSkipsWhiteSpace(ws, x);
    }
    ParseSignedOfSignedDigits(sign, ds, tail);
  }

  /** parseInt reads back the rendering of any integer, whatever white
      space precedes it and whatever non-digit text follows it. */
  lemma ParseIntOfIntToString(ws: string, n: int, tail: string)
    requires forall i :: 0 <= i < |ws| ==> IsWhiteSpace(ws[i])
    requires |tail| == 0 || !IsDigit(tail[0])
    ensures ParseInt(ws + IntToString(n) + tail) == Some(n)
  {
    var sign := if n < 0 then "-" else "";
    var ds := NaturalDigits(if n < 0 then -n else n);
    assert IntToString(n) == sign + ds;
    Regroup(ws, sign, ds, tail);
    ParseIntOfSignedDigits(ws, sign, ds, tail);
    assert SignedValue(sign, ds) == n;
  }

  lemma Regroup(a: string, b: string, c: string, d: string)
    ensures a + (b + c) + d == a + b + c + d
  {
  }

  /** `parseInt(s, 10)` is NaN exactly when no digit follows the leading
      white space and the optional sign: for white space `ws`, an optional
      sign, and `rest` not starting with a digit (nor, without a sign, with
      white space or a sign), `ws ++ sign ++ rest` parses to NaN, whatever
      digits `rest` holds later. With ParseIntOfSignedDigits this covers
      every string. */
  lemma ParseIntWithoutLeadingDigits(ws: string, sign: string, rest: string)
    requires forall i :: 0 <= i < |ws| ==> IsWhiteSpace(ws[i])
    requires sign == "" || sign == "+" || sign == "-"
    requires |rest| == 0 || !IsDigit(rest[0])
    requires sign == "" && |rest| > 0 ==> !IsWhiteSpace(rest[0]) && rest[0] != '+' && rest[0] != '-'
    ensures ParseInt(ws + sign + rest) == None
  {
    var x := sign + rest;
    assert ws + sign + rest == ws + x;
    assert TrimStart(ws + x) == x by {
      if |x| > 0 {
        assert x[0] == (if sign == "" then rest[0] else sign[0]);
        TrimStartSkipsWhiteSpace(ws, x);
      } else {
        assert ws + x == ws;
        TrimStartIsSuffix(ws);
      }
    }
    if sign != "" {
      assert x[0] == sign[0];
      assert x[1..] == rest;
    } else {
      assert x == rest;
    }
  }

  /** A string without a single decimal digit parses to NaN. */
  lemma ParseIntWithoutDigits(s: string)
    requires forall i :: 0 <= i < |s| ==> !IsDigit(s[i])
    ensures ParseInt(s) == None
  {
    var t := TrimStart(s);
    TrimStartIsSuffix(s);
    if |t| > 0 {
      assert t[0] == s[|s| - |t|];
      assert !IsDigit(t[0]);
    }
    if |t| > 1 {
      assert t[1] == s[|s| - |t| + 1];
      assert !IsDigit(t[1..][0]);
    }
  }
}

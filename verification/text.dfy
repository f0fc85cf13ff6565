/** String helpers with Python's meaning: `str.strip()`, `str.lower()` on
    ASCII letters, `startswith`/`endswith`, decimal formatting of integers
    (`str(n)`, `f"{n:02d}"`) and the code-point order Python uses to compare
    strings. */
module Text {

  /** Python's `str.isspace()`, the characters `str.strip()` with no
      argument removes: the ASCII controls 9-13 and 28-31, the space, U+0085,
      U+00A0, U+1680, U+2000-U+200A, U+2028, U+2029, U+202F, U+205F and
      U+3000. */
  predicate IsSpace(c: char) {
    var u := c as int;
    (0x09 <= u <= 0x0D) || (0x1C <= u <= 0x20) || u == 0x85 || u == 0xA0 || u == 0x1680
    || (0x2000 <= u <= 0x200A) || u == 0x2028 || u == 0x2029 || u == 0x202F || u == 0x205F
    || u == 0x3000
  }

  /** The visible ASCII characters '!'..'~' are not whitespace. */
  lemma VisibleAsciiNotSpace(c: char)
    requires '!' <= c <= '~'
    ensures !IsSpace(c)
  {
  }

  /** Neither the first nor the last character is whitespace. */
  predicate NoOuterSpace(s: string) {
    |s| == 0 || (!IsSpace(s[0]) && !IsSpace(s[|s| - 1]))
  }

  /** `s.lstrip()`: the longest suffix of `s` that does not start with
      whitespace; everything removed is whitespace. */
  function TrimLeft(s: string): (r: string)
    ensures |r| <= |s|
    ensures r == s[|s| - |r|..]
    ensures forall k :: 0 <= k < |s| - |r| ==> IsSpace(s[k])
    ensures |r| == 0 || !IsSpace(r[0])
  {
    if |s| > 0 && IsSpace(s[0]) then TrimLeft(s[1..]) else s
  }

  /** `s.rstrip()`: the longest prefix of `s` that does not end with
      whitespace; everything removed is whitespace. */
  function TrimRight(s: string): (r: string)
    ensures |r| <= |s|
    ensures r == s[..|r|]
    ensures forall k :: |r| <= k < |s| ==> IsSpace(s[k])
    ensures |r| == 0 || !IsSpace(r[|r| - 1])
  {
    if |s| > 0 && IsSpace(s[|s| - 1]) then TrimRight(s[..|s| - 1]) else s
  }

  /** `s.strip()`: `s` without the whitespace at both ends. */
  function Strip(s: string): (r: string)
    ensures NoOuterSpace(r)
    ensures |r| <= |s|
  {
    var l := TrimLeft(s);
    var r := TrimRight(l);
    assert |r| == 0 || !IsSpace(r[0]) by {
      if |r| > 0 {
        assert r[0] == l[0];
        assert !IsSpace(l[0]);
      }
    }
    assert |r| == 0 || !IsSpace(r[|r| - 1]);
    r
  }

  /** What `strip` keeps is a slice of `s` ... */
  lemma StripIsSlice(s: string)
    ensures var i := |s| - |TrimLeft(s)|;
      && i + |Strip(s)| <= |s|
      && forall k :: 0 <= k < |Strip(s)| ==> Strip(s)[k] == s[i + k]
  {
  }

  /** ... and everything around that slice is whitespace. */
  lemma StripRemovesOnlySpace(s: string)
    ensures var i := |s| - |TrimLeft(s)|;
      && (forall k :: 0 <= k < i ==> IsSpace(s[k]))
      && (forall k :: i + |Strip(s)| <= k < |s| ==> IsSpace(s[k]))
  {
    var l := TrimLeft(s);
    var i := |s| - |l|;
    var r := TrimRight(l);
    assert Strip(s) == r;
    forall k | i + |r| <= k < |s|
      ensures IsSpace(s[k])
    {
      var j := k - i;
      assert |r| <= j < |l|;
      assert IsSpace(l[j]);
      TrimLeftAt(s, j);
    }
  }

  lemma TrimLeftAt(s: string, j: int)
    requires 0 <= j < |TrimLeft(s)|
    ensures TrimLeft(s)[j] == s[|s| - |TrimLeft(s)| + j]
  {
  }

  /** A string without whitespace at either end is left alone by `strip`. */
  lemma StripFixesTrimmed(s: string)
    requires NoOuterSpace(s)
    ensures Strip(s) == s
  {
  }

  /** `strip` is idempotent. */
  lemma StripIdempotent(s: string)
    ensures Strip(Strip(s)) == Strip(s)
  {
    StripFixesTrimmed(Strip(s));
  }

  /** `strip` removes exactly the whitespace around a word: whitespace
      before it and after it, none of its own. */
  lemma StripPadded(pre: string, w: string, post: string)
    requires forall k :: 0 <= k < |pre| ==> IsSpace(pre[k])
    requires forall k :: 0 <= k < |post| ==> IsSpace(post[k])
    requires NoOuterSpace(w)
    ensures Strip(pre + w + post) == w
  {
    if |w| == 0 {
      assert pre + w + post == (pre + post) + "";
      forall k | 0 <= k < |pre + post|
        ensures IsSpace((pre + post)[k])
      {
        if k >= |pre| {
          assert (pre + post)[k] == post[k - |pre|];
        }
      }
      TrimLeftSpaces(pre + post, "");
    } else {
      assert pre + w + post == pre + (w + post);
      TrimLeftSpaces(pre, w + post);
      TrimRightSpaces(w, post);
    }
  }

  lemma {:induction false} TrimLeftSpaces(pre: string, rest: string)
    requires forall k :: 0 <= k < |pre| ==> IsSpace(pre[k])
    requires |rest| == 0 || !IsSpace(rest[0])
    ensures TrimLeft(pre + rest) == rest
    decreases |pre|
  {
    if |pre| > 0 {
      assert (pre + rest)[1..] == pre[1..] + rest;
      TrimLeftSpaces(pre[1..], rest);
    } else {
      assert pre + rest == rest;
    }
  }

  lemma {:induction false} TrimRightSpaces(rest: string, post: string)
    requires forall k :: 0 <= k < |post| ==> IsSpace(post[k])
    requires |rest| == 0 || !IsSpace(rest[|rest| - 1])
    ensures TrimRight(rest + post) == rest
    decreases |post|
  {
    if |post| > 0 {
      assert (rest + post)[..|rest + post| - 1] == rest + post[..|post| - 1];
      TrimRightSpaces(rest, post[..|post| - 1]);
    } else {
      assert rest + post == rest;
    }
  }

  /** `str.lower()` restricted to ASCII: 'A'..'Z' become 'a'..'z'. */
  function LowerChar(c: char): char {
    if 'A' <= c <= 'Z' then (c as int - 'A' as int + 'a' as int) as char else c
  }

  function Lower(s: string): (r: string)
    ensures |r| == |s|
    ensures forall k :: 0 <= k < |s| ==> r[k] == LowerChar(s[k])
  {
    if |s| == 0 then [] else [LowerChar(s[0])] + Lower(s[1..])
  }

  /** Lower-casing is idempotent and keeps whitespace where it was. */
  lemma LowerIdempotent(s: string)
    ensures Lower(Lower(s)) == Lower(s)
  {
  }

  /** Lower-casing works character by character: a string whose every
      character is the lower-case form of the matching one is `Lower`. */
  lemma LowerPointwise(s: string, t: string)
    requires |s| == |t|
    requires forall k :: 0 <= k < |s| ==> LowerChar(s[k]) == t[k]
    ensures Lower(s) == t
  {
  }

  lemma LowerKeepsSpace(c: char)
    ensures IsSpace(LowerChar(c)) <==> IsSpace(c)
  {
    if 'A' <= c <= 'Z' {
      VisibleAsciiNotSpace(c);
      VisibleAsciiNotSpace(LowerChar(c));
    }
  }

  predicate StartsWith(s: string, prefix: string) {
    |prefix| <= |s| && s[..|prefix|] == prefix
  }

  predicate EndsWith(s: string, suffix: string) {
    |suffix| <= |s| && s[|s| - |suffix|..] == suffix
  }

  // ---------------------------------------------------------------------
  // Decimal numbers

  predicate IsDigit(c: char) {
    '0' <= c <= '9'
  }

  predicate AllDigits(s: string) {
    forall k :: 0 <= k < |s| ==> IsDigit(s[k])
  }

  function DigitChar(d: nat): char
    requires d < 10
  {
    ('0' as int + d) as char
  }

  function DigitValue(c: char): nat
    requires IsDigit(c)
  {
    c as int - '0' as int
  }

  /** `str(n)` for a natural number: its decimal digits, no leading zero. */
  function NatToString(n: nat): (r: string)
    ensures |r| > 0 && AllDigits(r)
    ensures r[0] == '0' ==> n == 0
  {
    if n < 10 then [DigitChar(n)] else NatToString(n / 10) + [DigitChar(n % 10)]
  }

  /** `str(i)` for a Python `int`. */
  function IntToString(i: int): (r: string)
    ensures |r| > 0
    ensures i >= 0 ==> AllDigits(r)
    ensures i < 0 ==> r[0] == '-' && AllDigits(r[1..])
  {
    if i < 0 then "-" + NatToString(-i) else NatToString(i)
  }

  /** `int(s)` for a string of ASCII digits. */
  function ParseNat(s: string): nat
    requires AllDigits(s)
  {
    if |s| == 0 then 0 else ParseNat(s[..|s| - 1]) * 10 + DigitValue(s[|s| - 1])
  }

  /** Reading back the decimal form of `n` gives `n`. */
  lemma {:induction false} ParseNatToString(n: nat)
    ensures ParseNat(NatToString(n)) == n
  {
    var s := NatToString(n);
    if n >= 10 {
      assert s[..|s| - 1] == NatToString(n / 10);
      ParseNatToString(n / 10);
    }
  }

  /** `n` copies of `c`. */
  function Repeat(c: char, n: nat): (r: string)
    ensures |r| == n
    ensures forall k :: 0 <= k < n ==> r[k] == c
  {
    seq(n, _ => c)
  }

  /** `s` preceded by enough `c` characters to make it `width` long
      (`f"{n:0{width}d}"` when `c` is '0' and `s` is `str(n)`). */
  function PadLeft(s: string, width: nat, c: char): (r: string)
    ensures |r| == if |s| >= width then |s| else width
    ensures EndsWith(r, s)
    ensures forall k :: 0 <= k < |r| - |s| ==> r[k] == c
  {
    if |s| >= width then
      s
    else
      var r := Repeat(c, width - |s|) + s;
      assert r[|r| - |s|..] == s;
      r
  }

  /** Leading zeros do not change the value of a digit string. */
  lemma {:induction false} ParseNatLeadingZero(s: string)
    requires AllDigits(s)
    ensures AllDigits("0" + s) && ParseNat("0" + s) == ParseNat(s)
  {
    var t := "0" + s;
    if |s| > 0 {
      assert t[..|t| - 1] == "0" + s[..|s| - 1];
      ParseNatLeadingZero(s[..|s| - 1]);
    }
  }

  lemma {:induction false} ParseNatLeadingZeros(s: string, n: nat)
    requires AllDigits(s)
    ensures AllDigits(Repeat('0', n) + s) && ParseNat(Repeat('0', n) + s) == ParseNat(s)
  {
    if n > 0 {
      ParseNatLeadingZeros(s, n - 1);
      assert Repeat('0', n) + s == "0" + (Repeat('0', n - 1) + s);
      ParseNatLeadingZero(Repeat('0', n - 1) + s);
    } else {
      assert Repeat('0', n) + s == s;
    }
  }

  lemma ParseNatPadded(s: string, width: nat)
    requires AllDigits(s)
    ensures AllDigits(PadLeft(s, width, '0'))
    ensures ParseNat(PadLeft(s, width, '0')) == ParseNat(s)
  {
    if |s| < width {
      ParseNatLeadingZeros(s, width - |s|);
    }
  }

  /** The zero-padded decimal form of `n` reads back as `n`. */
  lemma PaddedRoundTrip(n: nat, width: nat)
    ensures AllDigits(PadLeft(NatToString(n), width, '0'))
    ensures ParseNat(PadLeft(NatToString(n), width, '0')) == n
  {
    ParseNatToString(n);
    ParseNatPadded(NatToString(n), width);
  }

  function Pow10(w: nat): (r: nat)
    ensures r >= 1
  {
    if w == 0 then 1 else 10 * Pow10(w - 1)
  }

  /** The last `w` decimal digits of `n`, zero-padded: `f"{n:0{w}d}"` for
      `n < 10 ** w`. */
  function FixedDigits(n: nat, w: nat): (r: string)
    ensures |r| == w && AllDigits(r)
  {
    if w == 0 then [] else FixedDigits(n / 10, w - 1) + [DigitChar(n % 10)]
  }

  /** A number that fits in `w` digits reads back from its `w`-digit form. */
  lemma {:induction false} ParseFixedDigits(n: nat, w: nat)
    requires n < Pow10(w)
    ensures ParseNat(FixedDigits(n, w)) == n
  {
    if w > 0 {
      var s := FixedDigits(n, w);
      assert s[..|s| - 1] == FixedDigits(n / 10, w - 1);
      ParseFixedDigits(n / 10, w - 1);
    }
  }

  /** A digit string is the fixed-width form of its own value. */
  lemma {:induction false} FixedDigitsOfParse(t: string)
    requires AllDigits(t)
    ensures ParseNat(t) < Pow10(|t|)
    ensures FixedDigits(ParseNat(t), |t|) == t
  {
    if |t| > 0 {
      var init := t[..|t| - 1];
      FixedDigitsOfParse(init);
      var n := ParseNat(t);
      assert n / 10 == ParseNat(init) && n % 10 == DigitValue(t[|t| - 1]);
      assert t == init + [t[|t| - 1]];
    }
  }

  /** The digits of a number that fits in `w` digits are `str(n)` padded
      with zeros on the left to width `w`. */
  lemma {:induction false} FixedDigitsIsPadded(n: nat, w: nat)
    requires 0 < w && n < Pow10(w)
    ensures FixedDigits(n, w) == PadLeft(NatToString(n), w, '0')
  {
    if n < 10 {
      ZeroDigits(w - 1);
      assert FixedDigits(n, w) == Repeat('0', w - 1) + [DigitChar(n)];
    } else {
      FixedDigitsIsPadded(n / 10, w - 1);
      var t := NatToString(n / 10);
      assert |t| <= w - 1;
      assert PadLeft(t, w - 1, '0') + [DigitChar(n % 10)] == Repeat('0', w - 1 - |t|) + (t + [DigitChar(n % 10)]);
    }
  }

  lemma {:induction false} ZeroDigits(k: nat)
    ensures FixedDigits(0, k) == Repeat('0', k)
  {
    if k > 0 {
      ZeroDigits(k - 1);
      assert Repeat('0', k) == Repeat('0', k - 1) + ['0'];
    }
  }

  // ---------------------------------------------------------------------
  // Fields (Python's `str.split` with an explicit separator)

  /** `s.split(sep)` with an explicit separator: the text between
      consecutive separators, empty fields included. */
  function Split(s: string, sep: char): (r: seq<string>)
    ensures |r| >= 1
    ensures forall i :: 0 <= i < |r| ==> sep !in r[i]
    decreases |s|
  {
    if |s| == 0 then [""]
    else
      var rest := Split(s[..|s| - 1], sep);
      if s[|s| - 1] == sep then rest + [""]
      else rest[..|rest| - 1] + [rest[|rest| - 1] + [s[|s| - 1]]]
  }

  /** `sep.join(fields)`. */
  function Join(fields: seq<string>, sep: char): string
    requires |fields| >= 1
  {
    if |fields| == 1 then fields[0]
    else Join(fields[..|fields| - 1], sep) + [sep] + fields[|fields| - 1]
  }

  /** Joining the fields of a split gives back the text. */
  lemma {:induction false} JoinSplit(s: string, sep: char)
    ensures Join(Split(s, sep), sep) == s
    decreases |s|
  {
    if |s| > 0 {
      var init := s[..|s| - 1];
      var rest := Split(init, sep);
      JoinSplit(init, sep);
      assert s == init + [s[|s| - 1]];
      if s[|s| - 1] == sep {
        assert (rest + [""])[..|rest|] == rest;
      } else if |rest| > 1 {
        var r := rest[..|rest| - 1] + [rest[|rest| - 1] + [s[|s| - 1]]];
        assert r[..|r| - 1] == rest[..|rest| - 1];
      }
    }
  }

  /** The split is the only way to cut the text into separator-free fields. */
  lemma {:induction false} SplitUnique(fields: seq<string>, sep: char)
    requires |fields| >= 1
    requires forall i :: 0 <= i < |fields| ==> sep !in fields[i]
    ensures Split(Join(fields, sep), sep) == fields
    decreases |Join(fields, sep)|
  {
    var init := fields[..|fields| - 1];
    var last := fields[|fields| - 1];
    assert fields == init + [last];
    if |last| > 0 {
      var c := last[|last| - 1];
      var shorter := init + [last[..|last| - 1]];
      assert last == last[..|last| - 1] + [c];
      JoinAppendChar(init, last[..|last| - 1], c, sep);
      FieldsWithoutSep(fields, shorter, sep);
      assert c in last;
      SplitUnique(shorter, sep);
      SplitAppendChar(Join(shorter, sep), c, sep);
      assert shorter[..|shorter| - 1] == init;
    } else if |init| > 0 {
      JoinAppendEmpty(init, sep);
      assert forall i :: 0 <= i < |init| ==> sep !in init[i] by {
        forall i | 0 <= i < |init|
          ensures sep !in init[i]
        {
          assert init[i] == fields[i];
        }
      }
      SplitUnique(init, sep);
      SplitAppendChar(Join(init, sep), sep, sep);
    }
  }

  lemma JoinAppendChar(init: seq<string>, last: string, c: char, sep: char)
    ensures Join(init + [last + [c]], sep) == Join(init + [last], sep) + [c]
  {
    if |init| > 0 {
      assert (init + [last + [c]])[..|init|] == init;
      assert (init + [last])[..|init|] == init;
    }
  }

  lemma JoinAppendEmpty(init: seq<string>, sep: char)
    requires |init| >= 1
    ensures Join(init + [""], sep) == Join(init, sep) + [sep]
  {
    assert (init + [""])[..|init|] == init;
  }

  /** Dropping the final character of the last field keeps every field free
      of the separator. */
  lemma FieldsWithoutSep(fields: seq<string>, shorter: seq<string>, sep: char)
    requires |fields| >= 1 && |fields[|fields| - 1]| > 0
    requires forall i :: 0 <= i < |fields| ==> sep !in fields[i]
    requires shorter == fields[..|fields| - 1] + [fields[|fields| - 1][..|fields[|fields| - 1]| - 1]]
    ensures forall i :: 0 <= i < |shorter| ==> sep !in shorter[i]
  {
    var last := fields[|fields| - 1];
    assert forall c :: c in last[..|last| - 1] ==> c in last;
    forall i | 0 <= i < |shorter|
      ensures sep !in shorter[i]
    {
      if i < |fields| - 1 {
        assert shorter[i] == fields[i];
      }
    }
  }

  /** One more character extends the last field, or starts a new one when
      it is the separator. */
  lemma SplitAppendChar(s: string, c: char, sep: char)
    ensures var rest := Split(s, sep);
      Split(s + [c], sep) == if c == sep then rest + [""] else rest[..|rest| - 1] + [rest[|rest| - 1] + [c]]
  {
    assert (s + [c])[..|s|] == s;
  }

  /** `s.split(sep)[-1]`: the text after the last separator, or all of it
      when there is none. */
  function LastField(s: string, sep: char): string {
    var fields := Split(s, sep);
    fields[|fields| - 1]
  }

  /** The last field is the longest separator-free end of the text: it has
      no separator, and what comes before it is empty or ends with one. */
  lemma LastFieldIsSuffix(s: string, sep: char)
    ensures sep !in LastField(s, sep)
    ensures |LastField(s, sep)| <= |s| && s[|s| - |LastField(s, sep)|..] == LastField(s, sep)
    ensures |LastField(s, sep)| < |s| ==> s[|s| - |LastField(s, sep)| - 1] == sep
  {
    var fields := Split(s, sep);
    JoinSplit(s, sep);
    if |fields| > 1 {
      assert s == Join(fields[..|fields| - 1], sep) + [sep] + fields[|fields| - 1];
    }
  }

  /** A separator-free word after a last separator is the last field. */
  lemma LastFieldAfter(prefix: string, sep: char, word: string)
    requires sep !in word
    ensures LastField(prefix + [sep] + word, sep) == word
  {
    var fields := Split(prefix, sep);
    JoinSplit(prefix, sep);
    var cut := fields + [word];
    assert cut[..|cut| - 1] == fields;
    assert forall i :: 0 <= i < |cut| ==> sep !in cut[i] by {
      forall i | 0 <= i < |cut|
        ensures sep !in cut[i]
      {
        if i < |fields| {
          assert cut[i] == fields[i];
        }
      }
    }
    SplitUnique(cut, sep);
  }

  /** A text without the separator is its own last field. */
  lemma LastFieldOfWord(word: string, sep: char)
    requires sep !in word
    ensures LastField(word, sep) == word
  {
    SplitUnique([word], sep);
  }

  /** `s.split(sep)[0]`: the text before the first separator. */
  function FirstField(s: string, sep: char): string {
    Split(s, sep)[0]
  }

  /** A separator-free word before a first separator is the first field. */
  lemma FirstFieldBefore(word: string, sep: char, rest: string)
    requires sep !in word
    ensures FirstField(word + [sep] + rest, sep) == word
  {
    var fields := Split(rest, sep);
    JoinSplit(rest, sep);
    var cut := [word] + fields;
    JoinPrepend(word, fields, sep);
    assert forall i :: 0 <= i < |cut| ==> sep !in cut[i] by {
      forall i | 0 <= i < |cut|
        ensures sep !in cut[i]
      {
        if i > 0 {
          assert cut[i] == fields[i - 1];
        }
      }
    }
    SplitUnique(cut, sep);
  }

  lemma {:induction false} JoinPrepend(word: string, fields: seq<string>, sep: char)
    requires |fields| >= 1
    ensures Join([word] + fields, sep) == word + [sep] + Join(fields, sep)
    decreases |fields|
  {
    var all := [word] + fields;
    if |fields| > 1 {
      assert all[..|all| - 1] == [word] + fields[..|fields| - 1];
      JoinPrepend(word, fields[..|fields| - 1], sep);
    } else {
      assert all[..|all| - 1] == [word];
    }
  }

  // ---------------------------------------------------------------------
  // Code-point lexicographic order (Python's `<` on `str`)

  predicate LexLess(a: string, b: string)
    decreases |a|
  {
    |b| > 0 && (|a| == 0 || a[0] < b[0] || (a[0] == b[0] && LexLess(a[1..], b[1..])))
  }

  lemma {:induction false} LexLessIrreflexive(a: string)
    ensures !LexLess(a, a)
    decreases |a|
  {
    if |a| > 0 {
      LexLessIrreflexive(a[1..]);
    }
  }

  lemma {:induction false} LexLessTransitive(a: string, b: string, c: string)
    requires LexLess(a, b) && LexLess(b, c)
    ensures LexLess(a, c)
    decreases |a|
  {
    if |a| > 0 && a[0] == b[0] && b[0] == c[0] {
      LexLessTransitive(a[1..], b[1..], c[1..]);
    }
  }

  lemma {:induction false} LexLessTotal(a: string, b: string)
    requires a != b
    ensures LexLess(a, b) || LexLess(b, a)
    decreases |a|
  {
    if |a| > 0 && |b| > 0 && a[0] == b[0] {
      assert a == [a[0]] + a[1..];
      assert b == [b[0]] + b[1..];
      LexLessTotal(a[1..], b[1..]);
    }
  }
}

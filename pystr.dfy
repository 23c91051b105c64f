/** The Python `str` operations the indexers use, on `seq<char>`. */
module PyStr {
  import opened Wrappers

  /** `c.isspace()`: the characters Python counts as whitespace. */
  predicate IsSpace(c: char) {
    ('\t' <= c <= '\r') || ('\U{1C}' <= c <= '\U{1F}') || c == ' ' || c == '\U{85}' || c == '\U{A0}'
    || c == '\U{1680}' || ('\U{2000}' <= c <= '\U{200A}') || c == '\U{2028}' || c == '\U{2029}'
    || c == '\U{202F}' || c == '\U{205F}' || c == '\U{3000}'
  }

  /** `s.lstrip()`: the suffix left after removing every leading whitespace character. */
  function LStrip(s: string): (r: string)
    ensures |r| <= |s| && r == s[|s| - |r|..]
    ensures forall i :: 0 <= i < |s| - |r| ==> IsSpace(s[i])
    ensures r == [] || !IsSpace(r[0])
  {
    if |s| > 0 && IsSpace(s[0]) then LStrip(s[1..]) else s
  }

  /** `s.rstrip()`: the prefix left after removing every trailing whitespace character. */
  function RStrip(s: string): (r: string)
    ensures |r| <= |s| && r == s[..|r|]
    ensures forall i :: |r| <= i < |s| ==> IsSpace(s[i])
    ensures r == [] || !IsSpace(r[|r| - 1])
  {
    if |s| > 0 && IsSpace(s[|s| - 1]) then RStrip(s[..|s| - 1]) else s
  }

  /** `s.strip()` */
  function Strip(s: string): (r: string)
    ensures r == [] || (!IsSpace(r[0]) && !IsSpace(r[|r| - 1]))
  {
    RStrip(LStrip(s))
  }

  /** Text that neither starts nor ends with whitespace is its own `strip()`. */
  lemma StripUnpadded(s: string)
    requires s == [] || (!IsSpace(s[0]) && !IsSpace(s[|s| - 1]))
    ensures Strip(s) == s
  {
  }

  /** `strip()` is idempotent. */
  lemma StripIdempotent(s: string)
    ensures Strip(Strip(s)) == Strip(s)
  {
    StripUnpadded(Strip(s));
  }

  /** `s.rfind(c)`: the index of the last occurrence of `c`, or -1. */
  function RFind(s: string, c: char): (r: int)
    ensures -1 <= r < |s|
    ensures r >= 0 ==> s[r] == c
    ensures forall i :: r < i < |s| ==> s[i] != c
  {
    if |s| == 0 then -1 else if s[|s| - 1] == c then |s| - 1 else RFind(s[..|s| - 1], c)
  }

  /** `s.find(c)`: the index of the first occurrence of `c`, or -1. */
  function Find(s: string, c: char): (r: int)
    ensures -1 <= r < |s|
    ensures r >= 0 ==> s[r] == c
    ensures forall i :: 0 <= i < |s| && (r < 0 || i < r) ==> s[i] != c
  {
    if |s| == 0 then -1
    else if s[0] == c then 0
    else var t := Find(s[1..], c); if t < 0 then -1 else t + 1
  }

  predicate AllDots(s: string) {
    forall i :: 0 <= i < |s| ==> s[i] == '.'
  }

  /** The last component of a path: what follows its last '/'. */
  function Basename(p: string): string {
    p[RFind(p, '/') + 1..]
  }

  /**
   * Where `os.path.splitext(p)` cuts `p`: at the last '.' of the final path component,
   * unless every character before that dot in the component is itself a dot (so
   * ".bashrc" has no extension); at the end of `p` otherwise.
   */
  function ExtStart(p: string): (k: nat)
    ensures k <= |p|
    ensures k == |p| || (p[k] == '.' && forall i :: k < i < |p| ==> p[i] != '.' && p[i] != '/')
  {
    var sep := RFind(p, '/');
    var dot := RFind(p, '.');
    if dot > sep && !AllDots(p[sep + 1..dot]) then dot else |p|
  }

  /** `os.path.splitext(p)`: the root and the extension, which is empty or one dot and what follows it. */
  function SplitExt(p: string): (r: (string, string))
    ensures r.0 + r.1 == p
    ensures r.1 == [] || (r.1[0] == '.' && '.' !in r.1[1..] && '/' !in r.1)
  {
    var k := ExtStart(p);
    assert forall i :: 0 <= i < |p[k..]| ==> p[k..][i] == p[k + i];
    (p[..k], p[k..])
  }

  /** `os.path.splitext(p)[0]` */
  function StripExt(p: string): string {
    SplitExt(p).0
  }

  /** A path whose last component holds no '.' has no extension. */
  lemma SplitExtNoDot(p: string)
    requires '.' !in Basename(p)
    ensures SplitExt(p) == (p, [])
  {
    var sep := RFind(p, '/');
    NoDotInTail(p, sep);
    NoDotAfter(p, sep);
  }

  lemma NoDotInTail(p: string, sep: int)
    requires -1 <= sep < |p| && '.' !in p[sep + 1..]
    ensures forall i :: sep < i < |p| ==> p[i] != '.'
  {
    forall i | sep < i < |p| ensures p[i] != '.' {
      assert p[i] == p[sep + 1..][i - sep - 1];
    }
  }

  lemma NoDotAfter(p: string, sep: int)
    requires sep == RFind(p, '/')
    requires forall i :: sep < i < |p| ==> p[i] != '.'
    ensures SplitExt(p) == (p, [])
  {
    assert RFind(p, '.') <= sep;
    assert ExtStart(p) == |p|;
    SplitExtAtEnd(p);
  }

  lemma SplitExtAtEnd(p: string)
    requires ExtStart(p) == |p|
    ensures SplitExt(p) == (p, [])
  {
    assert p[..|p|] == p && p[|p|..] == [];
  }

  /**
   * Splitting the extension off `stem + ext` gives back `stem` and `ext` whenever `ext`
   * is a dot followed by neither '.' nor '/', and the last component of `stem` has a
   * character other than a dot.
   */
  lemma {:induction false} SplitExtOfStemAndExt(stem: string, ext: string)
    requires |ext| > 0 && ext[0] == '.' && '.' !in ext[1..] && '/' !in ext
    requires !AllDots(Basename(stem))
    ensures SplitExt(stem + ext) == (stem, ext)
  {
    var p := stem + ext;
    var sep := RFind(p, '/');
    var dot := RFind(p, '.');
    assert p[|stem|] == '.';
    forall i | |stem| < i < |p| ensures p[i] != '.' {
      assert p[i] == ext[1..][i - |stem| - 1];
    }
    assert dot == |stem|;
    assert forall i :: |stem| <= i < |p| ==> p[i] == ext[i - |stem|];
    assert forall i :: |stem| <= i < |p| ==> p[i] != '/';
    assert p[..|stem|] == stem;
    RFindPrefix(p, |stem|, '/');
    assert sep == RFind(stem, '/');
    assert p[sep + 1..dot] == Basename(stem);
  }

  /** When `c` does not occur in `s[k..]`, the last `c` of `s` is the last `c` of `s[..k]`. */
  lemma {:induction false} RFindPrefix(s: string, k: nat, c: char)
    requires k <= |s|
    requires forall i :: k <= i < |s| ==> s[i] != c
    ensures RFind(s, c) == RFind(s[..k], c)
  {
    if k < |s| {
      assert s[..|s| - 1][..k] == s[..k];
      RFindPrefix(s[..|s| - 1], k, c);
    } else {
      assert s[..k] == s;
    }
  }

  function StartsWith(s: string, prefix: string): bool {
    |prefix| <= |s| && s[..|prefix|] == prefix
  }

  /** `s.endswith(suffix)` */
  function EndsWith(s: string, suffix: string): bool {
    |suffix| <= |s| && s[|s| - |suffix|..] == suffix
  }

  lemma EndsWithConcat(a: string, b: string)
    ensures EndsWith(a + b, b)
  {
    assert (a + b)[|a|..] == b;
  }

  lemma EndsWithTrans(s: string, t: string, u: string)
    requires EndsWith(s, t) && EndsWith(t, u)
    ensures EndsWith(s, u)
  {
    assert s[|s| - |u|..] == s[|s| - |t|..][|t| - |u|..];
  }

  /** `sub in s`, scanning every starting position. */
  predicate Contains(s: string, sub: string) {
    |sub| <= |s| && (s[..|sub|] == sub || (|s| > 0 && Contains(s[1..], sub)))
  }

  predicate OccursAt(s: string, sub: string, i: int) {
    0 <= i <= |s| - |sub| && s[i..i + |sub|] == sub
  }

  /** `sub in s` holds exactly when `sub` occurs at some position of `s`. */
  lemma {:induction false} ContainsIffOccurs(s: string, sub: string)
    ensures Contains(s, sub) <==> exists i :: OccursAt(s, sub, i)
  {
    if |sub| <= |s| && s[..|sub|] == sub {
      assert OccursAt(s, sub, 0);
    } else if |sub| <= |s| && |s| > 0 {
      ContainsIffOccurs(s[1..], sub);
      if exists i :: OccursAt(s, sub, i) {
        var i :| OccursAt(s, sub, i);
        assert i != 0;
        assert s[1..][i - 1..i - 1 + |sub|] == s[i..i + |sub|];
        assert OccursAt(s[1..], sub, i - 1);
      }
      if exists i :: OccursAt(s[1..], sub, i) {
        var i :| OccursAt(s[1..], sub, i);
        assert s[i + 1..i + 1 + |sub|] == s[1..][i..i + |sub|];
        assert OccursAt(s, sub, i + 1);
      }
    }
  }

  /** The first piece when `s` is split at `c`: the text before the first `c`. */
  function BeforeFirst(s: string, c: char): (r: string)
    ensures c !in r
    ensures r == s || (|r| < |s| && s[|r|] == c)
    ensures r == s[..|r|]
  {
    var i := Find(s, c);
    if i < 0 then s else s[..i]
  }

  /** The last piece when `s` is split at `c`: the text after the last `c`. */
  function AfterLast(s: string, c: char): (r: string)
    ensures c !in r
    ensures r == s || (|r| < |s| && s[|s| - |r| - 1] == c)
    ensures r == s[|s| - |r|..]
  {
    s[RFind(s, c) + 1..]
  }

  /** `s[:-n]` for a positive `n`: all but the last `n` characters, or "" if there are fewer. */
  function DropLast(s: string, n: nat): (r: string)
    requires n > 0
    ensures |r| == if |s| >= n then |s| - n else 0
    ensures r == s[..|r|]
  {
    if |s| >= n then s[..|s| - n] else []
  }

  // ----- int(s), str(n) and "%05d" % n -----

  predicate IsDigit(c: char) {
    '0' <= c <= '9'
  }

  function DigitChar(d: nat): (c: char)
    requires d < 10
    ensures IsDigit(c)
  {
    ['0', '1', '2', '3', '4', '5', '6', '7', '8', '9'][d]
  }

  function DigitValue(c: char): (d: nat)
    requires IsDigit(c)
    ensures d < 10
  {
    (c as int) - ('0' as int)
  }

  /** A decimal literal as `int()` takes it: digits, with single underscores between digits. */
  predicate WellFormedDigits(d: string) {
    && |d| > 0
    && IsDigit(d[0])
    && (|d| == 1 || if d[1] == '_' then |d| > 2 && WellFormedDigits(d[2..]) else WellFormedDigits(d[1..]))
  }

  /** The value of the digits of `d` read in order, ignoring every other character. */
  function DigitsValue(d: string): nat {
    if |d| == 0 then 0
    else if IsDigit(d[|d| - 1]) then DigitsValue(d[..|d| - 1]) * 10 + DigitValue(d[|d| - 1])
    else DigitsValue(d[..|d| - 1])
  }

  /**
   * `int(s)` on a string: surrounding whitespace is ignored, an optional sign is
   * followed by a well-formed decimal literal; anything else raises ValueError (None).
   */
  function ParseInt(s: string): Option<int> {
    var t := Strip(s);
    var signed := |t| > 0 && (t[0] == '-' || t[0] == '+');
    var body := if signed then t[1..] else t;
    if WellFormedDigits(body) then
      var v: int := DigitsValue(body); Some(if signed && t[0] == '-' then -v else v)
    else None
  }

  /** The shortest decimal spelling of `n`. */
  function ToDecimal(n: nat): (r: string)
    ensures |r| > 0 && forall i :: 0 <= i < |r| ==> IsDigit(r[i])
  {
    if n < 10 then [DigitChar(n)] else ToDecimal(n / 10) + [DigitChar(n % 10)]
  }

  /** The decimal text of an integer, with a leading minus sign when it is negative. */
  function IntToStr(n: int): string {
    if n < 0 then "-" + ToDecimal(-n) else ToDecimal(n)
  }

  function Zeros(n: nat): (r: string)
    ensures |r| == n && forall i :: 0 <= i < n ==> r[i] == '0'
  {
    if n == 0 then [] else Zeros(n - 1) + ['0']
  }

  function ZeroPad(s: string, width: nat): (r: string) {
    if |s| >= width then s else Zeros(width - |s|) + s
  }

  /** `"%05d" % n`: zero-padded to five characters, the sign counted among them. */
  function Format05d(n: int): (r: string)
    ensures |r| >= 5
  {
    if n < 0 then "-" + ZeroPad(ToDecimal(-n), 4) else ZeroPad(ToDecimal(n), 5)
  }

  lemma {:induction false} DigitValueOfDigitChar(d: nat)
    requires d < 10
    ensures DigitValue(DigitChar(d)) == d
  {
  }

  lemma {:induction false} ToDecimalValue(n: nat)
    ensures DigitsValue(ToDecimal(n)) == n
  {
    var r := ToDecimal(n);
    if n >= 10 {
      ToDecimalValue(n / 10);
      assert r[..|r| - 1] == ToDecimal(n / 10);
      DigitValueOfDigitChar(n % 10);
    } else {
      DigitValueOfDigitChar(n);
      assert r[..0] == [];
    }
  }

  /** Leading zeros do not change the value of a literal. */
  lemma {:induction false} ZerosValue(k: nat, d: string)
    requires forall i :: 0 <= i < |d| ==> IsDigit(d[i])
    ensures DigitsValue(Zeros(k) + d) == DigitsValue(d)
  {
    var z := Zeros(k) + d;
    if |d| == 0 {
      assert z == Zeros(k);
      ZerosValueZero(k);
    } else {
      assert z[..|z| - 1] == Zeros(k) + d[..|d| - 1];
      ZerosValue(k, d[..|d| - 1]);
    }
  }

  lemma ZerosValueZero(k: nat)
    ensures DigitsValue(Zeros(k)) == 0
  {
    AllZerosValue(Zeros(k));
  }

  lemma {:induction false} AllZerosValue(s: string)
    requires forall i :: 0 <= i < |s| ==> s[i] == '0'
    ensures DigitsValue(s) == 0
  {
    if |s| > 0 {
      var t := s[..|s| - 1];
      assert forall i :: 0 <= i < |t| ==> t[i] == s[i];
      AllZerosValue(t);
    }
  }

  /** A non-empty run of digits is a well-formed literal. */
  lemma {:induction false} AllDigitsWellFormed(d: string)
    requires |d| > 0 && forall i :: 0 <= i < |d| ==> IsDigit(d[i])
    ensures WellFormedDigits(d)
  {
    if |d| > 1 {
      AllDigitsWellFormed(d[1..]);
    }
  }

  lemma ZeroPadDigits(s: string, width: nat)
    requires |s| > 0 && forall i :: 0 <= i < |s| ==> IsDigit(s[i])
    ensures WellFormedDigits(ZeroPad(s, width))
    ensures DigitsValue(ZeroPad(s, width)) == DigitsValue(s)
  {
    var z := ZeroPad(s, width);
    if |s| < width {
      ZerosValue(width - |s|, s);
      assert forall i :: 0 <= i < |z| ==> IsDigit(z[i]) by {
        forall i | 0 <= i < |z| ensures IsDigit(z[i]) {
          if i < width - |s| { assert z[i] == Zeros(width - |s|)[i]; } else { assert z[i] == s[i - (width - |s|)]; }
        }
      }
    }
    AllDigitsWellFormed(z);
  }

  /** `"%05d" % n` is made of digits and a leading minus sign only, and ends in a digit. */
  lemma Format05dChars(n: int)
    ensures var f := Format05d(n);
      && (forall i :: 0 <= i < |f| ==> f[i] == '-' || IsDigit(f[i]))
      && IsDigit(f[|f| - 1])
  {
    var m: nat := if n < 0 then -n else n;
    var width := if n < 0 then 4 else 5;
    var d := ToDecimal(m);
    var z := ZeroPad(d, width);
    assert forall i :: 0 <= i < |z| ==> IsDigit(z[i]) by {
      forall i | 0 <= i < |z| ensures IsDigit(z[i]) {
        if |d| < width {
          if i < width - |d| { assert z[i] == Zeros(width - |d|)[i]; } else { assert z[i] == d[i - (width - |d|)]; }
        }
      }
    }
    if n < 0 {
      assert Format05d(n) == "-" + z;
    }
  }

  /** A signless literal with no surrounding whitespace parses to its value. */
  lemma ParseIntOfDigits(d: string)
    requires WellFormedDigits(d) && IsDigit(d[|d| - 1])
    ensures ParseInt(d) == Some(DigitsValue(d))
  {
    assert IsDigit(d[0]);
    assert !IsSpace(d[0]) && !IsSpace(d[|d| - 1]);
    StripUnpadded(d);
    assert !(d[0] == '-' || d[0] == '+');
  }

  /** A literal after a minus sign parses to the negated value. */
  lemma ParseIntOfNegated(d: string)
    requires WellFormedDigits(d) && IsDigit(d[|d| - 1])
    ensures ParseInt("-" + d) == Some(-(DigitsValue(d) as int))
  {
    var s := "-" + d;
    assert s[|s| - 1] == d[|d| - 1];
    assert !IsSpace(s[0]) && !IsSpace(s[|s| - 1]);
    StripUnpadded(s);
    assert s[1..] == d;
    ParseIntSigned(s);
  }

  lemma ParseIntSigned(s: string)
    requires Strip(s) == s && |s| > 0 && s[0] == '-' && WellFormedDigits(s[1..])
    ensures ParseInt(s) == Some(-(DigitsValue(s[1..]) as int))
  {
  }

  lemma ToDecimalWellFormed(n: nat)
    ensures WellFormedDigits(ToDecimal(n)) && IsDigit(ToDecimal(n)[|ToDecimal(n)| - 1])
  {
    AllDigitsWellFormed(ToDecimal(n));
  }

  /** `int(str(n)) == n` */
  lemma ParseIntOfStr(n: int)
    ensures ParseInt(IntToStr(n)) == Some(n)
  {
    if n < 0 {
      ToDecimalWellFormed(-n);
      ParseIntOfNegated(ToDecimal(-n));
      ToDecimalValue(-n);
    } else {
      ToDecimalWellFormed(n);
      ParseIntOfDigits(ToDecimal(n));
      ToDecimalValue(n);
    }
  }

  /** `int("%05d" % n) == n`: a zero-padded frame number parses back to itself. */
  lemma ParseIntOfFormat05d(n: int)
    ensures ParseInt(Format05d(n)) == Some(n)
  {
    var m: nat := if n < 0 then -n else n;
    var width := if n < 0 then 4 else 5;
    var d := ZeroPad(ToDecimal(m), width);
    ZeroPadDigits(ToDecimal(m), width);
    ToDecimalValue(m);
    assert IsDigit(d[|d| - 1]);
    if n < 0 {
      ParseIntOfNegated(d);
    } else {
      ParseIntOfDigits(d);
    }
  }
}

/** The string operations the modelled code uses, with JavaScript's semantics:
    the decimal spelling of a number used as a store key, the canonical array-index
    test applied to property names, `substring`, `lastIndexOf`, a global
    `replace`, `split` and `join`. */
module JsText {
  import opened JsValues

  // ---------------------------------------------------------------------------
  // Decimal spelling of integers (what `String(n)` gives for an integer n)

  predicate IsDigit(c: char)
  {
    '0' <= c <= '9'
  }

  function DigitChar(d: nat): (c: char)
    requires d < 10
    ensures IsDigit(c) && c as int - '0' as int == d
  {
    ('0' as int + d) as char
  }

  function DigitValue(c: char): (d: nat)
    requires IsDigit(c)
    ensures d < 10 && DigitChar(d) == c
  {
    c as int - '0' as int
  }

  /** The decimal digits of n, without leading zeros. */
  function NatToString(n: nat): (s: string)
    ensures |s| > 0
    decreases n
  {
    if n < 10 then [DigitChar(n)] else NatToString(n / 10) + [DigitChar(n % 10)]
  }

  /** The spelling of a number is all digits, with no leading zero. */
  lemma {:induction false} NatToStringDigits(n: nat)
    ensures forall k :: 0 <= k < |NatToString(n)| ==> IsDigit(NatToString(n)[k])
    ensures |NatToString(n)| > 1 ==> NatToString(n)[0] != '0'
    decreases n
  {
    if n >= 10 {
      NatToStringDigits(n / 10);
    }
  }

  /** `String(i)` for an integer i: the key under which position i is stored. It is never
      empty and starts with '-' exactly for a negative number. */
  function IntToString(i: int): (s: string)
    ensures |s| > 0 && (s[0] == '-' <==> i < 0)
  {
    NatToStringDigits(if i < 0 then -i else i);
    if i < 0 then "-" + NatToString(-i) else NatToString(i)
  }

  /** A position key starts with a digit or a minus sign, so it is never the reserved key. */
  lemma NotIndexesKey(i: int)
    ensures IntToString(i) != "indexes"
  {
    NatToStringDigits(if i < 0 then -i else i);
    assert IntToString(i)[0] != "indexes"[0];
  }

  /** The value of a non-empty string of digits. */
  function DigitsValue(s: string): nat
    requires forall k :: 0 <= k < |s| ==> IsDigit(s[k])
  {
    if s == [] then 0 else DigitsValue(s[..|s| - 1]) * 10 + DigitValue(s[|s| - 1])
  }

  /** 2^32 - 1: a JavaScript array index is a number below it. */
  const MaxArrayLength: nat := 4294967295

  /** JavaScript's test whether a property name is an array index: a non-empty string of
      digits without a leading zero (except "0" itself) whose value is below 2^32 - 1. */
  function ParseIndex(s: string): (r: Option<nat>)
    ensures r.Some? ==> |s| > 0 && r.value < MaxArrayLength
  {
    if |s| > 0 && (forall k :: 0 <= k < |s| ==> IsDigit(s[k])) && (|s| == 1 || s[0] != '0')
       && DigitsValue(s) < MaxArrayLength
    then Some(DigitsValue(s))
    else None
  }

  lemma {:induction false} DigitsOfNat(n: nat)
    ensures var s := NatToString(n); (forall k :: 0 <= k < |s| ==> IsDigit(s[k])) && DigitsValue(s) == n
    decreases n
  {
    var s := NatToString(n);
    NatToStringDigits(n);
    if n >= 10 {
      DigitsOfNat(n / 10);
      assert s[..|s| - 1] == NatToString(n / 10);
    }
  }

  /** Spelling a position and parsing it back gives the position. */
  lemma ParseIndexOfString(n: nat)
    requires n < MaxArrayLength
    ensures ParseIndex(NatToString(n)) == Some(n)
  {
    NatToStringDigits(n);
    DigitsOfNat(n);
  }

  lemma {:induction false} NatOfDigits(s: string)
    requires |s| > 0 && forall k :: 0 <= k < |s| ==> IsDigit(s[k])
    requires |s| == 1 || s[0] != '0'
    ensures NatToString(DigitsValue(s)) == s
    decreases |s|
  {
    if |s| > 1 {
      var init := s[..|s| - 1];
      NatOfDigits(init);
      LeadingDigitPositive(init);
      var n := DigitsValue(s);
      assert n / 10 == DigitsValue(init) && n % 10 == DigitValue(s[|s| - 1]);
      assert s == init + [s[|s| - 1]];
    }
  }

  lemma {:induction false} LeadingDigitPositive(s: string)
    requires |s| > 0 && forall k :: 0 <= k < |s| ==> IsDigit(s[k])
    requires s[0] != '0'
    ensures DigitsValue(s) > 0
    decreases |s|
  {
    if |s| > 1 {
      LeadingDigitPositive(s[..|s| - 1]);
    }
  }

  /** Every string accepted as an array index is the spelling of the index it denotes. */
  lemma StringOfParseIndex(s: string)
    requires ParseIndex(s).Some?
    ensures NatToString(ParseIndex(s).value) == s
  {
    NatOfDigits(s);
  }

  /** Two positions share a store key only if they are the same position. */
  lemma IntToStringInjective(i: int, j: int)
    ensures IntToString(i) == IntToString(j) ==> i == j
  {
    if (i < 0) != (j < 0) {
      SignedKeysDiffer(i, j);
    } else if i < 0 {
      NegativeKeys(i, j);
    } else {
      NatToStringInjective(i, j);
    }
  }

  /** A negative position's key starts with '-', a non-negative one's with a digit. */
  lemma SignedKeysDiffer(i: int, j: int)
    requires (i < 0) != (j < 0)
    ensures IntToString(i) != IntToString(j)
  {
    NatToStringDigits(if i < 0 then -i else i);
    NatToStringDigits(if j < 0 then -j else j);
    assert IntToString(i)[0] != IntToString(j)[0];
  }

  /** Two negative positions share a key only if their magnitudes are spelled alike. */
  lemma NegativeKeys(i: int, j: int)
    requires i < 0 && j < 0
    ensures IntToString(i) == IntToString(j) ==> i == j
  {
    if IntToString(i) == IntToString(j) {
      assert NatToString(-i) == IntToString(i)[1..] == IntToString(j)[1..] == NatToString(-j);
      NatToStringInjective(-i, -j);
    }
  }

  /** Distinct numbers are spelled differently: reading the digits recovers each of them. */
  lemma NatToStringInjective(a: nat, b: nat)
    ensures NatToString(a) == NatToString(b) ==> a == b
  {
    DigitsOfNat(a);
    DigitsOfNat(b);
  }

  /** The facts the array layer needs about position keys, stated once for all positions:
      distinct positions have distinct keys, and no position key is the reserved key. */
  lemma PositionKeys()
    ensures forall i, j {:trigger IntToString(i), IntToString(j)} ::
      IntToString(i) == IntToString(j) ==> i == j
    ensures forall i :: IntToString(i) != "indexes"
  {
    forall i, j ensures IntToString(i) == IntToString(j) ==> i == j {
      IntToStringInjective(i, j);
    }
    forall i ensures IntToString(i) != "indexes" {
      NotIndexesKey(i);
    }
  }

  // ---------------------------------------------------------------------------
  // String.prototype methods used by Sifbase.__dirname and Sifbase.isSifStore

  predicate StartsWith(s: string, prefix: string)
  {
    |prefix| <= |s| && s[..|prefix|] == prefix
  }

  predicate EndsWith(s: string, suffix: string)
  {
    |suffix| <= |s| && s[|s| - |suffix|..] == suffix
  }

  /** `s.endsWith(suffix)` holds exactly for the strings of the form `stem + suffix`. */
  lemma EndsWithConcat(s: string, suffix: string)
    ensures EndsWith(s, suffix) <==> exists stem :: s == stem + suffix
  {
    if EndsWith(s, suffix) {
      assert s == s[..|s| - |suffix|] + suffix;
    }
    if exists stem :: s == stem + suffix {
      var stem :| s == stem + suffix;
      assert s[|s| - |suffix|..] == suffix;
    }
  }

  function Clamp(x: int, lo: int, hi: int): int
    requires lo <= hi
  {
    if x < lo then lo else if x > hi then hi else x
  }

  function Min(a: int, b: int): int
  {
    if a < b then a else b
  }

  function Max(a: int, b: int): int
  {
    if a < b then b else a
  }

  /** `s.substring(start, end)`: both bounds are clamped to [0, |s|] and swapped when
      start exceeds end. */
  function Substring(s: string, start: int, end: int): (r: string)
    ensures 0 <= start <= end <= |s| ==> r == s[start..end]
    ensures 0 <= end < start <= |s| ==> r == s[end..start]
    ensures var a, b := Clamp(start, 0, |s|), Clamp(end, 0, |s|); r == s[Min(a, b)..Max(a, b)]
    ensures end < 0 && start >= |s| ==> r == s
  {
    var a := Clamp(start, 0, |s|);
    var b := Clamp(end, 0, |s|);
    if a <= b then s[a..b] else s[b..a]
  }

  /** `s.lastIndexOf(c)` for a one-character pattern. */
  function LastIndexOf(s: string, c: char): (r: int)
    ensures -1 <= r < |s|
    ensures r >= 0 ==> s[r] == c
    ensures forall k :: r < k < |s| ==> s[k] != c
  {
    if s == [] then -1
    else if s[|s| - 1] == c then |s| - 1
    else LastIndexOf(s[..|s| - 1], c)
  }

  /** `s.replace(/%20/g, " ")`: every occurrence, scanned left to right without overlap,
      becomes a space. */
  function DecodeSpaces(s: string): (r: string)
    ensures |r| <= |s|
    ensures '%' !in s ==> r == s
  {
    if |s| >= 3 && s[..3] == "%20" then " " + DecodeSpaces(s[3..])
    else if s == [] then []
    else [s[0]] + DecodeSpaces(s[1..])
  }

  /** `t` occurs in `s` at position k. */
  predicate OccursAt(s: string, t: string, k: int)
  {
    0 <= k && k + |t| <= |s| && s[k..k + |t|] == t
  }

  /** When the decoding starts with a character other than a space, so does the input,
      and that character was copied across unchanged. */
  lemma {:induction false} DecodeSpacesHead(s: string)
    requires |DecodeSpaces(s)| > 0 && DecodeSpaces(s)[0] != ' '
    ensures |s| > 0 && s[0] == DecodeSpaces(s)[0] && !StartsWith(s, "%20")
    ensures DecodeSpaces(s) == [s[0]] + DecodeSpaces(s[1..])
  {
  }

  /** Removing a prefix shifts every later occurrence by the prefix length. */
  lemma OccursAfterPrefix(c: string, t: string, pat: string, k: int)
    requires k >= |c|
    ensures OccursAt(c + t, pat, k) <==> OccursAt(t, pat, k - |c|)
  {
    if k + |pat| <= |c + t| {
      assert (c + t)[k..k + |pat|] == t[k - |c|..k - |c| + |pat|];
    }
  }

  /** "%20" starts a string exactly when it is a '%' followed by "20". */
  lemma OccursAfterChar(c: char, t: string)
    ensures OccursAt([c] + t, "%20", 0) <==> c == '%' && OccursAt(t, "20", 0)
  {
    if |t| >= 2 {
      var u := [c] + t;
      assert u[0..3] == [c] + t[0..2];
      if c == '%' && t[0..2] == "20" {
        assert u[0..3] == "%20";
      }
      if u[0..3] == "%20" {
        assert u[0] == '%' && u[1] == '2' && u[2] == '0';
        assert t[0..2] == "20";
      }
    }
  }

  /** A decoding that starts with "20" comes from an input that starts with "20". */
  lemma DecodeSpacesTwenty(t: string)
    ensures OccursAt(DecodeSpaces(t), "20", 0) ==> OccursAt(t, "20", 0)
  {
    if OccursAt(DecodeSpaces(t), "20", 0) {
      DecodeSpacesHead(t);
      assert DecodeSpaces(t[1..])[0] == DecodeSpaces(t)[..2][1] == '0';
      DecodeSpacesHead(t[1..]);
      assert t[..2] == [t[0], t[1..][0]];
    }
  }

  /** A string that does not start with "%20" is not a '%' followed by "20". */
  lemma NoLeadingTwenty(s: string)
    requires s != [] && !(|s| >= 3 && s[..3] == "%20")
    ensures !(s[0] == '%' && OccursAt(s[1..], "20", 0))
  {
    if |s| >= 3 {
      assert s[..3] == [s[0]] + s[1..][0..2];
    }
  }

  /** No "%20" survives the replacement: the result of a global replace never contains the
      pattern, even where the removal brings new neighbours together. */
  lemma {:induction false} DecodeSpacesComplete(s: string)
    ensures forall k :: !OccursAt(DecodeSpaces(s), "%20", k)
    decreases |s|
  {
    var r := DecodeSpaces(s);
    if |s| >= 3 && s[..3] == "%20" {
      DecodeSpacesComplete(s[3..]);
      assert r == " " + DecodeSpaces(s[3..]);
      forall k ensures !OccursAt(r, "%20", k) {
        if k >= 1 {
          OccursAfterPrefix(" ", DecodeSpaces(s[3..]), "%20", k);
        } else if k == 0 {
          assert r[0] == ' ';
        }
      }
    } else if s != [] {
      var tail := DecodeSpaces(s[1..]);
      DecodeSpacesComplete(s[1..]);
      DecodeSpacesTwenty(s[1..]);
      NoLeadingTwenty(s);
      assert r == [s[0]] + tail;
      forall k ensures !OccursAt(r, "%20", k) {
        if k >= 1 {
          OccursAfterPrefix([s[0]], tail, "%20", k);
        } else if k == 0 {
          OccursAfterChar(s[0], tail);
        }
      }
    }
  }

  /** `s.split(sep)` for a non-empty separator: the pieces between leftmost,
      non-overlapping occurrences of `sep`. */
  function Split(s: string, sep: string): (parts: seq<string>)
    requires |sep| > 0
    ensures |parts| > 0
    decreases |s|
  {
    if |s| < |sep| then [s]
    else if s[..|sep|] == sep then [""] + Split(s[|sep|..], sep)
    else
      var rest := Split(s[1..], sep);
      [[s[0]] + rest[0]] + rest[1..]
  }

  /** `parts.join(sep)`: one separator between each two pieces. */
  function Join(parts: seq<string>, sep: string): string
    decreases |parts|
  {
    if |parts| == 0 then ""
    else if |parts| == 1 then parts[0]
    else parts[0] + sep + Join(parts[1..], sep)
  }

  /** The joined string is at least as long as the first piece and the separators
      between the pieces together. */
  lemma {:induction false} JoinLength(parts: seq<string>, sep: string)
    requires |parts| > 0
    ensures |Join(parts, sep)| >= |parts[0]| + (|parts| - 1) * |sep|
    decreases |parts|
  {
    if |parts| > 1 {
      JoinLength(parts[1..], sep);
      assert |Join(parts, sep)| == |parts[0]| + |sep| + |Join(parts[1..], sep)|;
    }
  }

  /** Joining the pieces of a split with the same separator restores the string. */
  lemma {:induction false} JoinSplit(s: string, sep: string)
    requires |sep| > 0
    ensures Join(Split(s, sep), sep) == s
    decreases |s|
  {
    if |s| < |sep| {
    } else if s[..|sep|] == sep {
      JoinSplit(s[|sep|..], sep);
      JoinSplitAtSep(s, sep);
    } else {
      JoinSplit(s[1..], sep);
      JoinSplitAtChar(s, sep);
    }
  }

  /** A string that starts with the separator: an empty first piece, then the rest. */
  lemma JoinSplitAtSep(s: string, sep: string)
    requires |sep| > 0 && |s| >= |sep| && s[..|sep|] == sep
    requires Join(Split(s[|sep|..], sep), sep) == s[|sep|..]
    ensures Join(Split(s, sep), sep) == s
  {
    var rest := Split(s[|sep|..], sep);
    assert Split(s, sep) == [""] + rest;
    JoinCons("", rest, sep);
    assert s[..|sep|] + s[|sep|..] == s;
  }

  /** Joining a piece in front of non-empty pieces puts the separator between them. */
  lemma JoinCons(x: string, parts: seq<string>, sep: string)
    requires |parts| > 0
    ensures Join([x] + parts, sep) == x + sep + Join(parts, sep)
  {
    assert ([x] + parts)[1..] == parts;
  }

  /** A string that does not start with the separator: its first character leads the
      first piece of the rest. */
  lemma JoinSplitAtChar(s: string, sep: string)
    requires |sep| > 0 && |s| >= |sep| && s[..|sep|] != sep
    requires Join(Split(s[1..], sep), sep) == s[1..]
    ensures Join(Split(s, sep), sep) == s
  {
    var rest := Split(s[1..], sep);
    SplitAtChar(s, sep);
    JoinHead(s[..1], rest, sep);
    assert s[..1] + s[1..] == s;
  }

  /** Where the text does not start with the separator, its first character joins the
      first piece of the rest. */
  lemma SplitAtChar(s: string, sep: string)
    requires |sep| > 0 && |s| >= |sep| && s[..|sep|] != sep
    ensures var rest := Split(s[1..], sep); Split(s, sep) == [s[..1] + rest[0]] + rest[1..]
  {
    assert [s[0]] == s[..1];
  }

  /** Prepending text to the first piece prepends it to the joined string. */
  lemma JoinHead(x: string, parts: seq<string>, sep: string)
    requires |parts| > 0
    ensures Join([x + parts[0]] + parts[1..], sep) == x + Join(parts, sep)
  {
    var q := [x + parts[0]] + parts[1..];
    if |parts| > 1 {
      assert q[1..] == parts[1..];
    }
  }

  /** On a path that starts with "/C:", `split("C:").slice(1).join("C:")` drops exactly that
      leading "/C:" and keeps every later "C:". */
  lemma DropDriveLetter(p: string)
    requires StartsWith(p, "/C:")
    ensures |Split(p, "C:")| > 1 && Join(Split(p, "C:")[1..], "C:") == p[3..]
  {
    assert p[..2] != "C:" by { assert p[0] == '/'; }
    assert p[1..][..2] == "C:";
    assert p[1..][2..] == p[3..];
    var rest := Split(p[3..], "C:");
    assert Split(p[1..], "C:") == [""] + rest;
    assert Split(p, "C:")[1..] == rest;
    JoinSplit(p[3..], "C:");
  }

  /** Dropping a leading "/C:" from text with no "%20" leaves text with no "%20". */
  lemma DropDriveLetterClean(p: string)
    requires StartsWith(p, "/C:") && forall k :: !OccursAt(p, "%20", k)
    ensures |p| >= 3 && Join(Split(p, "C:")[1..], "C:") == p[3..]
    ensures forall k :: !OccursAt(p[3..], "%20", k)
  {
    DropDriveLetter(p);
    NoTwentyInSuffix(p, 3);
  }

  /** A suffix of text with no "%20" has no "%20". */
  lemma NoTwentyInSuffix(p: string, n: nat)
    requires n <= |p| && forall k :: !OccursAt(p, "%20", k)
    ensures forall k :: !OccursAt(p[n..], "%20", k)
  {
    forall k | OccursAt(p[n..], "%20", k) ensures OccursAt(p, "%20", k + n) {
      assert p[n..][k..k + 3] == p[k + n..k + n + 3];
    }
  }
}

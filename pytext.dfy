/**
 * The few Python string built-ins the vector store relies on: `str.lower`,
 * `str.strip`, `str.split(sep)`, `str.split()`, `sep.join`, `str(int)` and
 * `int(str)`, each stated over `seq<char>`.
 */
module PyText {
  import opened Wrappers

  /** A Python argument that may be a `str`, a `list` of `str`, or some other value. */
  datatype PyValue = Str(s: string) | StrList(items: seq<string>) | OtherValue

  /** `c.isspace()`: the characters Python's `split()` and `strip()` treat as whitespace. */
  predicate IsSpace(c: char) {
    var k := c as int;
    k == 32 || (9 <= k <= 13) || (28 <= k <= 31) || k == 0x85 || k == 0xA0 || k == 0x1680
    || (0x2000 <= k <= 0x200A) || k == 0x2028 || k == 0x2029 || k == 0x202F || k == 0x205F
    || k == 0x3000
  }

  /** No whitespace anywhere in `s`. */
  predicate NoSpace(s: string) {
    forall i :: 0 <= i < |s| ==> !IsSpace(s[i])
  }

  /** No whitespace at either end of `s`: `s.strip() == s`. */
  predicate Trimmed(s: string) {
    s == [] || (!IsSpace(s[0]) && !IsSpace(s[|s| - 1]))
  }

  /** Lower-casing of one character (ASCII letters only). */
  function LowerChar(c: char): char {
    if 'A' <= c <= 'Z' then (c as int + 32) as char else c
  }

  /** Lower-casing maps capitals to small letters, keeps every other character, and so keeps whitespace. */
  lemma LowerCharFacts(c: char)
    ensures IsSpace(LowerChar(c)) <==> IsSpace(c)
    ensures 'A' <= c <= 'Z' ==> 'a' <= LowerChar(c) <= 'z'
    ensures !('A' <= c <= 'Z') ==> LowerChar(c) == c
  {
  }

  /** `s.lower()`. */
  function Lower(s: string): string {
    seq(|s|, i requires 0 <= i < |s| => LowerChar(s[i]))
  }

  /** Lower-casing keeps a string free of whitespace at its ends. */
  lemma LowerKeepsTrimmed(s: string)
    requires Trimmed(s)
    ensures Trimmed(Lower(s))
  {
    if |s| > 0 {
      LowerCharFacts(s[0]);
      LowerCharFacts(s[|s| - 1]);
    }
  }

  /** `s.lstrip()`. */
  function StripLeft(s: string): string {
    if s != [] && IsSpace(s[0]) then StripLeft(s[1..]) else s
  }

  /** `s.rstrip()`. */
  function StripRight(s: string): string {
    if s != [] && IsSpace(s[|s| - 1]) then StripRight(s[..|s| - 1]) else s
  }

  /** `s.strip()`. */
  function Strip(s: string): string {
    StripRight(StripLeft(s))
  }

  /** `lstrip()` drops the leading whitespace and nothing else. */
  lemma {:induction false} StripLeftFacts(s: string)
    ensures var r := StripLeft(s);
            && |r| <= |s| && r == s[|s| - |r|..]
            && (r == [] || !IsSpace(r[0]))
            && (forall i :: 0 <= i < |s| - |r| ==> IsSpace(s[i]))
    decreases |s|
  {
    if s != [] && IsSpace(s[0]) {
      StripLeftFacts(s[1..]);
      var r := StripLeft(s);
      forall i | 0 <= i < |s| - |r| ensures IsSpace(s[i]) {
        if i > 0 {
          assert s[i] == s[1..][i - 1];
        }
      }
    }
  }

  /** `rstrip()` drops the trailing whitespace and nothing else. */
  lemma {:induction false} StripRightFacts(s: string)
    ensures var r := StripRight(s);
            && |r| <= |s| && r == s[..|r|]
            && (r == [] || !IsSpace(r[|r| - 1]))
            && (forall i :: |r| <= i < |s| ==> IsSpace(s[i]))
    decreases |s|
  {
    if s != [] && IsSpace(s[|s| - 1]) {
      var init := s[..|s| - 1];
      StripRightFacts(init);
      var r := StripRight(s);
      assert r == init[..|r|];
      forall i | |r| <= i < |s| ensures IsSpace(s[i]) {
        if i < |s| - 1 {
          assert s[i] == init[i];
        }
      }
    }
  }

  /**
   * `s.strip()` is the infix of `s` left after dropping the whitespace at
   * both ends: it is `Trimmed`, and a `Trimmed` string is left as it is.
   */
  lemma StripFacts(s: string)
    ensures Trimmed(Strip(s))
    ensures Trimmed(s) ==> Strip(s) == s
    ensures exists a: nat, b: nat :: a <= b <= |s| && Strip(s) == s[a..b]
  {
    var l := StripLeft(s);
    var r := StripRight(l);
    StripLeftFacts(s);
    StripRightFacts(l);
    var a := |s| - |l|;
    assert r == s[a..][..|r|];
    assert s[a..][..|r|] == s[a..a + |r|];
    if Trimmed(s) {
      assert |l| == |s|;
      assert |r| == |l|;
    }
  }

  /** `sep.join(parts)`. */
  function Join(parts: seq<string>, sep: string): (r: string)
  {
    if |parts| == 0 then ""
    else if |parts| == 1 then parts[0]
    else parts[0] + sep + Join(parts[1..], sep)
  }

  /** Joining three pieces puts the separator between each neighbouring pair. */
  lemma JoinThree(a: string, b: string, c: string, sep: string)
    ensures Join([a, b, c], sep) == a + sep + b + sep + c
  {
    assert [a, b, c][1..] == [b, c];
    assert [b, c][1..] == [c];
    assert Join([b, c], sep) == b + sep + c;
    assert Join([a, b, c], sep) == a + sep + (b + sep + c);
  }

  /** `s.split(sep)` for a non-empty separator: non-overlapping matches, left to right. */
  function SplitOn(s: string, sep: string): (r: seq<string>)
    requires |sep| > 0
    ensures |r| >= 1
    decreases |s|
  {
    if |s| < |sep| then [s]
    else if s[..|sep|] == sep then [""] + SplitOn(s[|sep|..], sep)
    else
      var rest := SplitOn(s[1..], sep);
      [[s[0]] + rest[0]] + rest[1..]
  }

  lemma JoinConsFirst(c: char, parts: seq<string>, sep: string)
    requires |parts| >= 1
    ensures Join([[c] + parts[0]] + parts[1..], sep) == [c] + Join(parts, sep)
  {
    var p := [[c] + parts[0]] + parts[1..];
    assert p[1..] == parts[1..];
  }

  /** Joining the pieces of a split with the same separator gives the string back. */
  lemma {:induction false} JoinSplitOn(s: string, sep: string)
    requires |sep| > 0
    ensures Join(SplitOn(s, sep), sep) == s
    decreases |s|
  {
    if |s| < |sep| {
    } else if s[..|sep|] == sep {
      var rest := SplitOn(s[|sep|..], sep);
      JoinSplitOn(s[|sep|..], sep);
      var p := [""] + rest;
      assert p[1..] == rest;
      assert Join(p, sep) == "" + sep + Join(rest, sep);
      assert s == s[..|sep|] + s[|sep|..];
    } else {
      var rest := SplitOn(s[1..], sep);
      JoinSplitOn(s[1..], sep);
      JoinConsFirst(s[0], rest, sep);
      assert s == [s[0]] + s[1..];
    }
  }

  lemma {:induction false} SplitOnNoSep(t: string, sep: string)
    requires |sep| > 0
    requires forall i :: 0 <= i < |t| ==> t[i] != sep[0]
    ensures SplitOn(t, sep) == [t]
    decreases |t|
  {
    if |t| < |sep| {
    } else {
      assert t[..|sep|][0] != sep[0];
      SplitOnNoSep(t[1..], sep);
      assert [t[0]] + t[1..] == t;
    }
  }

  lemma {:induction false} SplitOnHead(t: string, sep: string, u: string)
    requires |sep| > 0
    requires forall i :: 0 <= i < |t| ==> t[i] != sep[0]
    ensures SplitOn(t + sep + u, sep) == [t] + SplitOn(u, sep)
    decreases |t|
  {
    var s := t + sep + u;
    if |t| == 0 {
      assert s == sep + u;
      assert s[..|sep|] == sep && s[|sep|..] == u;
    } else {
      assert s[0] == t[0] != sep[0];
      assert s[..|sep|] != sep;
      assert s[1..] == t[1..] + sep + u;
      SplitOnHead(t[1..], sep, u);
      assert [t[0]] + t[1..] == t;
    }
  }

  /**
   * Splitting a joined list gives the list back when no part contains the
   * separator's first character (so no match can straddle two parts).
   */
  lemma {:induction false} SplitOnJoin(parts: seq<string>, sep: string)
    requires |sep| > 0 && |parts| >= 1
    requires forall k, i :: 0 <= k < |parts| && 0 <= i < |parts[k]| ==> parts[k][i] != sep[0]
    ensures SplitOn(Join(parts, sep), sep) == parts
    decreases |parts|
  {
    if |parts| == 1 {
      SplitOnNoSep(parts[0], sep);
    } else {
      assert forall k, i :: 0 <= k < |parts| - 1 && 0 <= i < |parts[1..][k]| ==> parts[1..][k][i] != sep[0] by {
        forall k, i | 0 <= k < |parts| - 1 && 0 <= i < |parts[1..][k]| ensures parts[1..][k][i] != sep[0] {
          assert parts[1..][k] == parts[k + 1];
        }
      }
      var rest := Join(parts[1..], sep);
      assert Join(parts, sep) == parts[0] + sep + rest;
      SplitOnJoin(parts[1..], sep);
      SplitOnHead(parts[0], sep, rest);
      assert [parts[0]] + parts[1..] == parts;
    }
  }

  /** Length of the longest whitespace-free prefix of `s`. */
  function TokenLength(s: string): (n: nat)
    ensures n <= |s|
    ensures forall i :: 0 <= i < n ==> !IsSpace(s[i])
    ensures n == |s| || IsSpace(s[n])
    ensures |s| > 0 && !IsSpace(s[0]) ==> n >= 1
  {
    if |s| == 0 || IsSpace(s[0]) then 0 else 1 + TokenLength(s[1..])
  }

  /** `s.split()`: the maximal runs of non-whitespace characters, in order. */
  function Words(s: string): (r: seq<string>)
    ensures forall k :: 0 <= k < |r| ==> |r[k]| > 0 && NoSpace(r[k])
    decreases |s|
  {
    if |s| == 0 then []
    else if IsSpace(s[0]) then Words(s[1..])
    else
      var n := TokenLength(s);
      [s[..n]] + Words(s[n..])
  }

  lemma TokenLengthOf(t: string, v: string)
    requires NoSpace(t)
    requires v == [] || IsSpace(v[0])
    ensures TokenLength(t + v) == |t|
  {
    var s := t + v;
    assert forall i :: 0 <= i < |t| ==> s[i] == t[i];
    assert |t| < |s| ==> s[|t|] == v[0];
  }

  lemma WordsOfOne(t: string)
    requires |t| > 0 && NoSpace(t)
    ensures Words(t) == [t]
  {
    TokenLengthOf(t, "");
    assert t + "" == t;
    assert t[|t|..] == [];
  }

  lemma WordsOfHead(t: string, u: string)
    requires |t| > 0 && NoSpace(t)
    ensures Words(t + " " + u) == [t] + Words(u)
  {
    var s := t + " " + u;
    assert s == t + (" " + u);
    TokenLengthOf(t, " " + u);
    assert s[..|t|] == t;
    assert s[|t|..] == " " + u;
    assert (" " + u)[1..] == u;
  }

  /**
   * `" ".join(parts).split()` gives the parts back when every part is
   * non-empty and free of whitespace.
   */
  lemma {:induction false} WordsJoin(parts: seq<string>)
    requires forall k :: 0 <= k < |parts| ==> |parts[k]| > 0 && NoSpace(parts[k])
    ensures Words(Join(parts, " ")) == parts
    decreases |parts|
  {
    if |parts| == 0 {
    } else if |parts| == 1 {
      WordsOfOne(parts[0]);
    } else {
      WordsJoin(parts[1..]);
      WordsOfHead(parts[0], Join(parts[1..], " "));
      assert [parts[0]] + parts[1..] == parts;
    }
  }

  // ---- str(int) and int(str) ----

  predicate IsDigit(c: char) {
    '0' <= c <= '9'
  }

  function DigitChar(d: nat): (c: char)
    requires d < 10
    ensures IsDigit(c) && c as int - '0' as int == d
  {
    (d + '0' as int) as char
  }

  /** Decimal digits of `n`, most significant first, with no leading zeros. */
  function NatToString(n: nat): (r: string)
    ensures |r| >= 1
    ensures forall i :: 0 <= i < |r| ==> IsDigit(r[i])
  {
    if n < 10 then [DigitChar(n)] else NatToString(n / 10) + [DigitChar(n % 10)]
  }

  /** `str(n)` for a Python int. */
  function IntToString(n: int): (r: string)
    ensures |r| >= 1 && NoSpace(r)
    ensures forall i :: 0 <= i < |r| ==> r[i] == '-' || IsDigit(r[i])
    ensures r[0] == '-' <==> n < 0
    ensures forall i :: 0 < i < |r| ==> IsDigit(r[i])
  {
    if n < 0 then "-" + NatToString(-n) else NatToString(n)
  }

  predicate AllDigits(s: string) {
    forall i :: 0 <= i < |s| ==> IsDigit(s[i])
  }

  /** The value of a string of decimal digits. */
  function DigitsValue(s: string): nat
    requires AllDigits(s)
  {
    if |s| == 0 then 0 else DigitsValue(s[..|s| - 1]) * 10 + (s[|s| - 1] as int - '0' as int)
  }

  /**
   * `int(s)` for a whitespace-free token: an optional sign followed by one or
   * more decimal digits; anything else is Python's `ValueError`, here `None`.
   */
  function ParseInt(s: string): (r: Option<int>)
    ensures r.Some? ==> |s| >= 1
  {
    if |s| >= 2 && (s[0] == '-' || s[0] == '+') && AllDigits(s[1..]) then
      var magnitude: int := DigitsValue(s[1..]);
      Some(if s[0] == '-' then -magnitude else magnitude)
    else if |s| >= 1 && AllDigits(s) then Some(DigitsValue(s))
    else None
  }

  lemma {:induction false} DigitsValueOfNat(n: nat)
    ensures DigitsValue(NatToString(n)) == n
  {
    var s := NatToString(n);
    if n < 10 {
      assert s[..0] == [];
    } else {
      DigitsValueOfNat(n / 10);
      assert s[..|s| - 1] == NatToString(n / 10);
    }
  }

  /** `int(str(n)) == n` for every integer. */
  lemma ParseIntToString(n: int)
    ensures ParseInt(IntToString(n)) == Some(n)
  {
    var s := IntToString(n);
    if n < 0 {
      DigitsValueOfNat(-n);
      assert s[1..] == NatToString(-n);
      assert s[0] == '-';
    } else {
      DigitsValueOfNat(n);
      assert s[0] != '-' && s[0] != '+';
    }
  }

  /** `int(t)` applied to every token; the first failure fails the whole list. */
  function ParseInts(tokens: seq<string>): (r: Option<seq<int>>)
    ensures r.Some? ==> |r.value| == |tokens|
    ensures r.Some? ==> forall i :: 0 <= i < |tokens| ==> ParseInt(tokens[i]) == Some(r.value[i])
    ensures r.None? ==> exists i :: 0 <= i < |tokens| && ParseInt(tokens[i]).None?
  {
    if |tokens| == 0 then Some([])
    else match (ParseInt(tokens[0]), ParseInts(tokens[1..]))
      case (Some(v), Some(vs)) => Some([v] + vs)
      case (None, _) => None
      case (_, None) => None
  }

  /** `[str(x) for x in xs]`. */
  function IntsToStrings(xs: seq<int>): (r: seq<string>)
    ensures |r| == |xs|
    ensures forall i :: 0 <= i < |xs| ==> r[i] == IntToString(xs[i])
  {
    seq(|xs|, i requires 0 <= i < |xs| => IntToString(xs[i]))
  }

  lemma ParseIntsToStrings(xs: seq<int>)
    ensures ParseInts(IntsToStrings(xs)) == Some(xs)
  {
    var ts := IntsToStrings(xs);
    forall i | 0 <= i < |xs| ensures ParseInt(ts[i]) == Some(xs[i]) {
      ParseIntToString(xs[i]);
    }
    var r := ParseInts(ts);
    assert r.Some?;
    assert r.value == xs;
  }
}

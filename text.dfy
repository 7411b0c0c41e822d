/** The small string vocabulary both programs use: Rust's `trim`, ASCII
    lowercasing, `find(' ')`/`splitn(2, ' ')`, `contains`, and decimal
    formatting of counters. Strings are sequences of chars. */
module Text {

  datatype Option<T> = None | Some(value: T)

  // ---------------------------------------------------------------------------
  // Character classes

  /** Rust's `char::is_ascii_alphanumeric`. */
  predicate IsAsciiAlphanumeric(c: char) {
    ('0' <= c <= '9') || ('A' <= c <= 'Z') || ('a' <= c <= 'z')
  }

  /** Rust's `char::is_whitespace`: the Unicode White_Space property. */
  predicate IsWhitespace(c: char) {
    ('\t' <= c <= '\r') || c == ' ' || c == '\U{85}' || c == '\U{A0}' || c == '\U{1680}'
    || ('\U{2000}' <= c <= '\U{200A}') || c == '\U{2028}' || c == '\U{2029}'
    || c == '\U{202F}' || c == '\U{205F}' || c == '\U{3000}'
  }

  predicate AllWhitespace(s: string) {
    forall i :: 0 <= i < |s| ==> IsWhitespace(s[i])
  }

  // ---------------------------------------------------------------------------
  // str::trim

  /** Drops the leading whitespace of `s`. */
  function TrimStart(s: string): (r: string)
    ensures |r| <= |s| && r == s[|s| - |r|..]
    ensures r == [] || !IsWhitespace(r[0])
    ensures forall i :: 0 <= i < |s| - |r| ==> IsWhitespace(s[i])
  {
    if s != [] && IsWhitespace(s[0]) then TrimStart(s[1..]) else s
  }

  /** Drops the trailing whitespace of `s`. */
  function TrimEnd(s: string): (r: string)
    ensures |r| <= |s| && r == s[..|r|]
    ensures r == [] || !IsWhitespace(r[|r| - 1])
    ensures forall i :: |r| <= i < |s| ==> IsWhitespace(s[i])
  {
    if s != [] && IsWhitespace(s[|s| - 1]) then TrimEnd(s[..|s| - 1]) else s
  }

  /** Rust's `str::trim`: the longest slice of `s` that neither starts nor ends
      with whitespace, everything around it being whitespace. */
  function Trim(s: string): (r: string)
    ensures |r| <= |s|
    ensures r == [] || (!IsWhitespace(r[0]) && !IsWhitespace(r[|r| - 1]))
  {
    TrimEnd(TrimStart(s))
  }

  /** What `Trim` drops is whitespace on both sides of the slice it keeps. */
  lemma TrimIsSlice(s: string)
    ensures var r := Trim(s);
            exists k :: 0 <= k && k + |r| <= |s| && r == s[k..k + |r|]
                        && AllWhitespace(s[..k]) && AllWhitespace(s[k + |r|..])
  {
    var t := TrimStart(s);
    var r := TrimEnd(t);
    var k := |s| - |t|;
    assert r == s[k..k + |r|] by {
      assert t == s[k..] && r == t[..|r|];
    }
    assert AllWhitespace(s[..k]) by {
      var front := s[..k];
      forall i | 0 <= i < |front| ensures IsWhitespace(front[i]) {
        assert front[i] == s[i];
      }
    }
    assert AllWhitespace(s[k + |r|..]) by {
      var back := s[k + |r|..];
      forall i | 0 <= i < |back| ensures IsWhitespace(back[i]) {
        assert back[i] == t[|r| + i];
      }
    }
  }

  /** A string that neither starts nor ends with whitespace is its own trim. */
  lemma {:induction false} TrimOfTrimmed(s: string)
    requires s == [] || (!IsWhitespace(s[0]) && !IsWhitespace(s[|s| - 1]))
    ensures Trim(s) == s
  {
    assert TrimStart(s) == s;
    assert TrimEnd(s) == s;
  }

  /** A line that neither starts nor ends with whitespace is what `trim`
      makes of it with its newline. */
  lemma {:induction false} TrimNewline(s: string)
    requires s == [] || (!IsWhitespace(s[0]) && !IsWhitespace(s[|s| - 1]))
    ensures Trim(s + "\n") == s
  {
    var g := s + "\n";
    if s == [] {
      assert TrimStart(g) == [] by {
        assert g == "\n" && IsWhitespace(g[0]) && g[1..] == [];
      }
    } else {
      assert TrimStart(g) == g by {
        assert g[0] == s[0];
      }
      assert TrimEnd(g) == TrimEnd(s) by {
        assert g[|g| - 1] == '\n' && g[..|g| - 1] == s;
      }
      TrimOfTrimmed(s);
    }
  }

  /** Trimming twice is trimming once. */
  lemma TrimIdempotent(s: string)
    ensures Trim(Trim(s)) == Trim(s)
  {
    TrimOfTrimmed(Trim(s));
  }

  /** `s.trim().is_empty()` holds exactly when every char of `s` is whitespace. */
  lemma {:induction false} TrimEmptyIff(s: string)
    ensures Trim(s) == [] <==> AllWhitespace(s)
  {
    var t := TrimStart(s);
    if !AllWhitespace(s) {
      var i :| 0 <= i < |s| && !IsWhitespace(s[i]);
      assert t == s[|s| - |t|..];
      assert i >= |s| - |t|;
      assert t[i - (|s| - |t|)] == s[i];
      assert TrimEnd(t) != [];
    }
  }

  // ---------------------------------------------------------------------------
  // Lowercasing

  /** `char::to_lowercase` restricted to ASCII: upper-case letters map to
      lower-case ones and every other char is left alone. */
  function LowerChar(c: char): (r: char)
    ensures 'A' <= c <= 'Z' ==> 'a' <= r <= 'z' && r as int - c as int == 32
    ensures !('A' <= c <= 'Z') ==> r == c
  {
    if 'A' <= c <= 'Z' then (c as int + 32) as char else c
  }

  function Lower(s: string): (r: string)
    ensures |r| == |s|
    ensures forall i :: 0 <= i < |s| ==> r[i] == LowerChar(s[i])
  {
    seq(|s|, i requires 0 <= i < |s| => LowerChar(s[i]))
  }

  /** Lowercasing twice is lowercasing once. */
  lemma LowerIdempotent(s: string)
    ensures Lower(Lower(s)) == Lower(s)
  {
  }

  // ---------------------------------------------------------------------------
  // find(' ') and splitn(2, ' ')

  /** `s.find(' ')`: the index of the first space, if any. */
  function FindSpace(s: string): (r: Option<nat>)
    ensures r.None? <==> ' ' !in s
    ensures r.Some? ==> r.value < |s| && s[r.value] == ' ' && ' ' !in s[..r.value]
  {
    if s == [] then None
    else if s[0] == ' ' then Some(0)
    else match FindSpace(s[1..])
      case None => None
      case Some(i) =>
        assert s[1..][..i] == s[1..i + 1];
        assert s[..i + 1] == [s[0]] + s[1..i + 1];
        Some(i + 1)
  }

  /** The two halves of `s` around its first space, if it has one:
      `s[..i]` and `s[i + 1..]`. */
  function SplitAtSpace(s: string): (r: Option<(string, string)>)
    ensures r.None? <==> ' ' !in s
    ensures r.Some? ==> s == r.value.0 + " " + r.value.1 && ' ' !in r.value.0
  {
    match FindSpace(s)
    case None => None
    case Some(i) =>
      assert s == s[..i] + " " + s[i + 1..];
      Some((s[..i], s[i + 1..]))
  }

  /** Splitting a space-free head joined to a tail by one space gives back
      the head and the tail. */
  lemma {:induction false} SplitAtSpaceJoin(head: string, tail: string)
    requires ' ' !in head
    ensures SplitAtSpace(head + " " + tail) == Some((head, tail))
  {
    var s := head + " " + tail;
    assert s[..|head|] == head;
    var r := SplitAtSpace(s);
    assert s[|head|] == ' ';
    assert r.Some?;
    var a := r.value.0;
    SpaceFreePrefixUnique(s, |a|, |head|);
    assert a == s[..|a|] == head;
    assert r.value.1 == s[|a| + 1..] == tail;
  }

  /** Two positions of `s` that are spaces with no space before them coincide. */
  lemma SpaceFreePrefixUnique(s: string, i: nat, j: nat)
    requires i < |s| && j < |s| && s[i] == ' ' && s[j] == ' '
    requires ' ' !in s[..i] && ' ' !in s[..j]
    ensures i == j
  {
  }

  // ---------------------------------------------------------------------------
  // str::contains

  /** `s.contains(p)`: `p` occurs in `s` as a contiguous slice. */
  predicate Contains(s: string, p: string)
    ensures Contains(s, p) ==> |p| <= |s|
    decreases |s|
  {
    (|p| <= |s| && s[..|p|] == p) || (s != [] && Contains(s[1..], p))
  }

  /** `p` occurs in `s` at offset `k`. */
  predicate OccursAt(s: string, p: string, k: nat) {
    k + |p| <= |s| && s[k..k + |p|] == p
  }

  /** An occurrence of `p` at any offset of `s` makes `Contains` hold. */
  lemma {:induction false} ContainsAt(s: string, p: string, k: nat)
    requires OccursAt(s, p, k)
    ensures Contains(s, p)
    decreases k
  {
    if k == 0 {
      assert s[..|p|] == s[0..|p|];
    } else {
      assert s[1..][k - 1..k - 1 + |p|] == s[k..k + |p|];
      ContainsAt(s[1..], p, k - 1);
    }
  }

  /** `Contains` holds only when `p` occurs at some offset of `s`. */
  lemma {:induction false} ContainsOccurs(s: string, p: string)
    requires Contains(s, p)
    ensures exists k: nat :: OccursAt(s, p, k)
    decreases |s|
  {
    if |p| <= |s| && s[..|p|] == p {
      assert s[0..|p|] == s[..|p|];
      assert OccursAt(s, p, 0);
    } else {
      ContainsOccurs(s[1..], p);
      var k: nat :| OccursAt(s[1..], p, k);
      assert s[1..][k..k + |p|] == s[k + 1..k + 1 + |p|];
      assert OccursAt(s, p, k + 1);
    }
  }

  // ---------------------------------------------------------------------------
  // Decimal formatting

  /** The value of one decimal digit. */
  function DigitValue(c: char): nat {
    if '0' <= c <= '9' then c as int - '0' as int else 0
  }

  /** The number a string of decimal digits spells, most significant digit
      first: a reader independent of `Decimal`. */
  function DigitsValue(r: string): nat {
    if r == [] then 0 else DigitsValue(r[..|r| - 1]) * 10 + DigitValue(r[|r| - 1])
  }

  /** The decimal text `format!("{}", n)` produces for an unsigned integer. */
  function Decimal(n: nat): (r: string)
    ensures |r| >= 1
    ensures forall i :: 0 <= i < |r| ==> '0' <= r[i] <= '9'
    ensures n >= 10 ==> r[0] != '0'
  {
    var d := ['0' + (n % 10) as char];
    if n < 10 then d else Decimal(n / 10) + d
  }

  /** The digits `Decimal` prints spell `n`. */
  lemma {:induction false} DecimalValue(n: nat)
    ensures DigitsValue(Decimal(n)) == n
  {
    var d := ['0' + (n % 10) as char];
    if n < 10 {
      assert Decimal(n)[..0] == [];
    } else {
      var a := Decimal(n / 10);
      assert Decimal(n) == a + d && (a + d)[..|a|] == a;
      DecimalValue(n / 10);
    }
  }

  /** Distinct counts are printed differently. */
  lemma DecimalInjective(m: nat, n: nat)
    requires Decimal(m) == Decimal(n)
    ensures m == n
  {
    DecimalValue(m);
    DecimalValue(n);
  }
}

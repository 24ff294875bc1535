/**
 * The handful of `java.lang.String` operations the lifecycle engine relies on.
 * Case mapping follows `Locale.ENGLISH` restricted to the ASCII letters.
 */
module Text {
  import opened Common

  const ReservedPrefix: string := "xyz.geik.gmanager"

  // ---------------------------------------------------------------- case

  function LowerChar(c: char): char {
    if 'A' <= c <= 'Z' then (c as int + 32) as char else c
  }

  function UpperChar(c: char): char {
    if 'a' <= c <= 'z' then (c as int - 32) as char else c
  }

  /** `String.toLowerCase(Locale.ENGLISH)` */
  function ToLower(s: string): (r: string)
    ensures |r| == |s|
    ensures forall i :: 0 <= i < |s| ==> r[i] == LowerChar(s[i])
  {
    seq(|s|, i requires 0 <= i < |s| => LowerChar(s[i]))
  }

  /** `String.toUpperCase(Locale.ENGLISH)` */
  function ToUpper(s: string): (r: string)
    ensures |r| == |s|
    ensures forall i :: 0 <= i < |s| ==> r[i] == UpperChar(s[i])
  {
    seq(|s|, i requires 0 <= i < |s| => UpperChar(s[i]))
  }

  predicate IsLowerCase(s: string) {
    forall i :: 0 <= i < |s| ==> !('A' <= s[i] <= 'Z')
  }

  /** Lower-casing yields a lower-case string, and lower-casing it again changes nothing. */
  lemma ToLowerIdempotent(s: string)
    ensures IsLowerCase(ToLower(s))
    ensures ToLower(ToLower(s)) == ToLower(s)
  {
    var t := ToLower(s);
    forall i | 0 <= i < |t| ensures !('A' <= t[i] <= 'Z') && LowerChar(t[i]) == t[i] {
      assert t[i] == LowerChar(s[i]);
    }
    assert ToLower(t) == t;
  }

  lemma LowerCaseFixed(s: string)
    requires IsLowerCase(s)
    ensures ToLower(s) == s
  {
    var t := ToLower(s);
    forall i | 0 <= i < |s| ensures t[i] == s[i] {
      assert !('A' <= s[i] <= 'Z');
    }
  }

  /** `String.equalsIgnoreCase`: equal lengths and, position by position, equal
      characters or characters equal after upper- or lower-casing. */
  predicate EqualsIgnoreCase(a: string, b: string) {
    |a| == |b| &&
    forall i :: 0 <= i < |a| ==>
      a[i] == b[i] || UpperChar(a[i]) == UpperChar(b[i]) || LowerChar(a[i]) == LowerChar(b[i])
  }

  /** Case-insensitive equality is equality of the lower-cased strings. */
  lemma EqualsIgnoreCaseIffLower(a: string, b: string)
    ensures EqualsIgnoreCase(a, b) <==> ToLower(a) == ToLower(b)
  {
    if ToLower(a) == ToLower(b) {
      forall i | 0 <= i < |a| ensures LowerChar(a[i]) == LowerChar(b[i]) {
        assert ToLower(a)[i] == ToLower(b)[i];
      }
    }
    if EqualsIgnoreCase(a, b) {
      forall i | 0 <= i < |a| ensures ToLower(a)[i] == ToLower(b)[i] {
        assert LowerChar(a[i]) == LowerChar(b[i]);
      }
    }
  }

  /** Strings equal up to case compare alike with any third string. */
  lemma EqualsIgnoreCaseAgree(x: string, a: string, b: string)
    requires EqualsIgnoreCase(a, b)
    ensures EqualsIgnoreCase(x, a) == EqualsIgnoreCase(x, b)
  {
    EqualsIgnoreCaseIffLower(a, b);
    EqualsIgnoreCaseIffLower(x, a);
    EqualsIgnoreCaseIffLower(x, b);
  }

  // ------------------------------------------------------------ searching

  /** `String.startsWith` */
  predicate StartsWith(s: string, prefix: string) {
    |prefix| <= |s| && s[..|prefix|] == prefix
  }

  /** `String.contains` */
  predicate Contains(s: string, sub: string)
    decreases |s|
  {
    StartsWith(s, sub) || (|s| > 0 && Contains(s[1..], sub))
  }

  /** `String.indexOf(char)`, as an option. */
  function IndexOf(s: string, c: char): (r: Option<nat>)
    ensures r.None? <==> c !in s
    ensures r.Some? ==> r.value < |s| && s[r.value] == c && c !in s[..r.value]
  {
    if s == [] then None
    else if s[0] == c then Some(0)
    else match IndexOf(s[1..], c)
      case None => None
      case Some(i) =>
        assert s[..i + 1] == [s[0]] + s[1..][..i];
        Some(i + 1)
  }

  lemma IndexOfFirst(s: string, c: char, k: nat)
    requires k < |s| && s[k] == c && c !in s[..k]
    ensures IndexOf(s, c) == Some(k)
  {
    var r := IndexOf(s, c);
    forall i | 0 <= i < k ensures s[i] != c { assert s[i] == s[..k][i]; }
    forall i | 0 <= i < r.value ensures s[i] != c { assert s[i] == s[..r.value][i]; }
  }

  /** `String.replace(pattern, "")`: scanning left to right, every occurrence of
      `pattern` that does not overlap an earlier removed one is deleted. */
  function RemoveAll(s: string, pattern: string): (r: string)
    requires |pattern| > 0
    decreases |s|
  {
    if |s| < |pattern| then s
    else if StartsWith(s, pattern) then RemoveAll(s[|pattern|..], pattern)
    else [s[0]] + RemoveAll(s[1..], pattern)
  }

  /** Removal changes the string exactly when the pattern occurs in it. */
  lemma {:induction false} RemoveAllShrinksIffContains(s: string, pattern: string)
    requires |pattern| > 0
    ensures |RemoveAll(s, pattern)| <= |s|
    ensures Contains(s, pattern) <==> |RemoveAll(s, pattern)| < |s|
    ensures !Contains(s, pattern) ==> RemoveAll(s, pattern) == s
    decreases |s|
  {
    if |s| < |pattern| {
      NoRoomNoMatch(s, pattern);
    } else if StartsWith(s, pattern) {
      RemoveAllShrinksIffContains(s[|pattern|..], pattern);
    } else {
      RemoveAllShrinksIffContains(s[1..], pattern);
      assert s == [s[0]] + s[1..];
    }
  }

  lemma {:induction false} NoRoomNoMatch(s: string, pattern: string)
    requires |s| < |pattern|
    ensures !Contains(s, pattern)
    decreases |s|
  {
    if |s| > 0 { NoRoomNoMatch(s[1..], pattern); }
  }

  // -------------------------------------------------------------- splitting

  /** The characters matched by Java's `\s`. */
  predicate IsWhitespace(c: char) {
    c == ' ' || c == '\t' || c == '\n' || c == '\r' || c as int == 0x0B || c as int == 0x0C
  }

  predicate AllWhitespace(s: string) {
    forall i :: 0 <= i < |s| ==> IsWhitespace(s[i])
  }

  /** Start of the run of whitespace that ends just before position `c`. */
  function RunStart(s: string, c: nat): (j: nat)
    requires c <= |s|
    ensures j <= c && AllWhitespace(s[j..c])
    ensures j == 0 || !IsWhitespace(s[j - 1])
  {
    if c > 0 && IsWhitespace(s[c - 1]) then
      var j := RunStart(s, c - 1);
      assert s[j..c] == s[j..c - 1] + [s[c - 1]];
      j
    else c
  }

  /** End of the run of whitespace that starts at position `k`. */
  function RunEnd(s: string, k: nat): (e: nat)
    requires k <= |s|
    ensures k <= e <= |s| && AllWhitespace(s[k..e])
    ensures e == |s| || !IsWhitespace(s[e])
    decreases |s| - k
  {
    if k < |s| && IsWhitespace(s[k]) then
      var e := RunEnd(s, k + 1);
      assert s[k..e] == [s[k]] + s[k + 1..e];
      e
    else k
  }

  /** The substrings between successive matches of `\s*,\s*`, leftmost match
      first; the leftmost match around the first comma starts where the
      whitespace before that comma starts. */
  function Pieces(s: string): (r: seq<string>)
    ensures |r| >= 1
    ensures forall p :: p in r ==> ',' !in p
    decreases |s|
  {
    match IndexOf(s, ',')
    case None => [s]
    case Some(c) =>
      var j := RunStart(s, c);
      var k := RunEnd(s, c + 1);
      assert ',' !in s[..j] by { assert s[..j] == s[..c][..j]; }
      [s[..j]] + Pieces(s[k..])
  }

  /** `String.split` drops the trailing empty strings. */
  function DropTrailingEmpty(p: seq<string>): (r: seq<string>)
    ensures |r| <= |p| && r == p[..|r|]
    ensures r == [] || r[|r| - 1] != ""
  {
    if p != [] && p[|p| - 1] == "" then DropTrailingEmpty(p[..|p| - 1]) else p
  }

  /** `s.split("\\s*,\\s*")`: a string without a match is returned whole. */
  function SplitOnCommas(s: string): (r: seq<string>)
    ensures forall p :: p in r ==> ',' !in p
  {
    if ',' !in s then [s]
    else
      var r := DropTrailingEmpty(Pieces(s));
      assert forall p :: p in r ==> p in Pieces(s);
      r
  }

  /** A dependency name as people write it in a list: not empty, no comma, no
      whitespace at either end. */
  predicate IsListItem(n: string) {
    n != [] && ',' !in n && !IsWhitespace(n[0]) && !IsWhitespace(n[|n| - 1])
  }

  /** Names joined by ", ". */
  function JoinCommaSpace(names: seq<string>): string
    requires |names| >= 1
  {
    if |names| == 1 then names[0] else names[0] + ", " + JoinCommaSpace(names[1..])
  }

  lemma {:induction false} JoinStartsWithFirst(names: seq<string>)
    requires |names| >= 1 && names[0] != []
    ensures JoinCommaSpace(names) != [] && JoinCommaSpace(names)[0] == names[0][0]
  {
  }

  lemma {:induction false} PiecesOfJoin(names: seq<string>)
    requires |names| >= 1
    requires forall n :: n in names ==> IsListItem(n)
    ensures Pieces(JoinCommaSpace(names)) == names
    decreases |names|
  {
    var n0 := names[0];
    assert IsListItem(n0);
    if |names| == 1 {
      assert JoinCommaSpace(names) == n0;
    } else {
      var rest := names[1..];
      assert rest[0] in names;
      JoinStartsWithFirst(rest);
      PiecesAfterFirst(n0, JoinCommaSpace(rest));
      forall n | n in rest ensures IsListItem(n) { assert n in names; }
      PiecesOfJoin(rest);
      assert names == [n0] + rest;
    }
  }

  /** A list item followed by ", " is the first piece, and the pieces of the
      rest follow. */
  lemma PiecesAfterFirst(n0: string, t: string)
    requires IsListItem(n0) && t != [] && !IsWhitespace(t[0])
    ensures Pieces(n0 + ", " + t) == [n0] + Pieces(t)
  {
    var s := n0 + ", " + t;
    assert s[..|n0|] == n0;
    assert s[|n0|] == ',';
    assert ',' !in s[..|n0|];
    IndexOfFirst(s, ',', |n0|);
    assert RunStart(s, |n0|) == |n0| by { assert s[|n0| - 1] == n0[|n0| - 1]; }
    assert s[|n0| + 1] == ' ';
    assert s[|n0| + 2] == t[0];
    assert RunEnd(s, |n0| + 2) == |n0| + 2;
    assert RunEnd(s, |n0| + 1) == |n0| + 2;
    assert s[|n0| + 2..] == t;
  }

  /** Splitting a ", "-joined list of names gives back the names. */
  lemma SplitJoinRoundTrip(names: seq<string>)
    requires |names| >= 1
    requires forall n :: n in names ==> IsListItem(n)
    ensures SplitOnCommas(JoinCommaSpace(names)) == names
  {
    var s := JoinCommaSpace(names);
    PiecesOfJoin(names);
    var last := names[|names| - 1];
    assert last in names;
    if ',' !in s {
      assert Pieces(s) == [s];
    } else {
      assert last != "";
      assert DropTrailingEmpty(names) == names;
    }
  }
}

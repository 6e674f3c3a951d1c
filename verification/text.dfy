/** The small part of `java.lang.String` the glossary code relies on, over `seq<char>`:
    `trim`, `startsWith`/`endsWith`/`contains`, `replace(char, char)`, `split` on a
    character class (with its trailing-empty-string rule) and `compareTo`. */
module Text {
  import opened Results

  /** `String.trim` removes every character whose code is at most U+0020. */
  predicate IsTrimmable(c: char) {
    c as int <= 0x20
  }

  predicate IsDigit(c: char) {
    '0' <= c <= '9'
  }

  predicate IsAsciiLetter(c: char) {
    ('A' <= c <= 'Z') || ('a' <= c <= 'z')
  }

  /** `\w` of `java.util.regex` without UNICODE_CHARACTER_CLASS: `[a-zA-Z_0-9]`. */
  predicate IsWordChar(c: char) {
    IsAsciiLetter(c) || IsDigit(c) || c == '_'
  }

  /** The line terminators of `java.util.regex` outside UNIX_LINES mode: `.` does not match
      them and `\Z` may stand before one of them at the end of the input. */
  const LineTerminators: set<char> := {'\n', '\r', '\U{85}', '\U{2028}', '\U{2029}'}

  predicate IsLineTerminator(c: char) {
    c in LineTerminators
  }

  predicate NotLineTerminator(c: char) {
    c !in LineTerminators
  }

  predicate AllTrimmable(s: string) {
    forall i :: 0 <= i < |s| ==> IsTrimmable(s[i])
  }

  function TrimStart(s: string): (r: string)
    ensures |r| <= |s| && r == s[|s| - |r|..]
    ensures AllTrimmable(s[..|s| - |r|])
    ensures r == [] || !IsTrimmable(r[0])
  {
    if |s| > 0 && IsTrimmable(s[0]) then TrimStart(s[1..]) else s
  }

  function TrimEnd(s: string): (r: string)
    ensures |r| <= |s| && r == s[..|r|]
    ensures AllTrimmable(s[|r|..])
    ensures r == [] || !IsTrimmable(r[|r| - 1])
  {
    if |s| > 0 && IsTrimmable(s[|s| - 1]) then
      var r := TrimEnd(s[..|s| - 1]);
      assert s[|r|..] == s[..|s| - 1][|r|..] + [s[|s| - 1]];
      r
    else s
  }

  /** `String.trim`. */
  function Trim(s: string): (r: string)
  {
    TrimEnd(TrimStart(s))
  }

  /** `trim` cuts a run of trimmable characters from each end and nothing else. */
  lemma TrimIsInfix(s: string)
    ensures exists i, j :: 0 <= i <= j <= |s| && Trim(s) == s[i..j]
                           && AllTrimmable(s[..i]) && AllTrimmable(s[j..])
    ensures Trim(s) == [] || (!IsTrimmable(Trim(s)[0]) && !IsTrimmable(Trim(s)[|Trim(s)| - 1]))
  {
    var i, j := TrimBounds(s);
  }

  /** Where the trimmed text sits in the original. */
  lemma TrimBounds(s: string) returns (i: nat, j: nat)
    ensures i <= j <= |s| && Trim(s) == s[i..j]
    ensures AllTrimmable(s[..i]) && AllTrimmable(s[j..])
    ensures Trim(s) == [] || (!IsTrimmable(Trim(s)[0]) && !IsTrimmable(Trim(s)[|Trim(s)| - 1]))
  {
    i, j := CutBothEnds(s, TrimStart(s), TrimEnd(TrimStart(s)));
  }

  /** Cutting a trimmable run from the front and then one from the back leaves an infix. */
  lemma CutBothEnds(s: string, t: string, e: string) returns (i: nat, j: nat)
    requires |t| <= |s| && t == s[|s| - |t|..] && AllTrimmable(s[..|s| - |t|])
    requires t == [] || !IsTrimmable(t[0])
    requires |e| <= |t| && e == t[..|e|] && AllTrimmable(t[|e|..])
    requires e == [] || !IsTrimmable(e[|e| - 1])
    ensures i <= j <= |s| && e == s[i..j]
    ensures AllTrimmable(s[..i]) && AllTrimmable(s[j..])
    ensures e == [] || (!IsTrimmable(e[0]) && !IsTrimmable(e[|e| - 1]))
  {
    i := |s| - |t|;
    j := i + |e|;
    assert s[j..] == t[|e|..];
    if e != [] {
      assert e[0] == t[0];
    }
  }

  /** A trimmed string comes back unchanged from `trim`. */
  lemma {:induction false} TrimIdempotent(s: string)
    ensures Trim(Trim(s)) == Trim(s)
  {
    TrimIsInfix(s);
    var t := Trim(s);
    if t != [] {
      assert TrimStart(t) == t;
      assert TrimEnd(t) == t;
    }
  }

  /** `trim` yields the empty string exactly when every character is trimmable. */
  lemma TrimEmptyIff(s: string)
    ensures Trim(s) == [] <==> AllTrimmable(s)
  {
    TrimIsInfix(s);
    if AllTrimmable(s) {
      TrimStartOfTrimmable(s);
    }
    if Trim(s) == [] {
      var i, j :| 0 <= i <= j <= |s| && Trim(s) == s[i..j] && AllTrimmable(s[..i]) && AllTrimmable(s[j..]);
      assert i == j;
      forall k | 0 <= k < |s|
        ensures IsTrimmable(s[k])
      {
        if k < i {
          assert s[..i][k] == s[k];
        } else {
          assert s[j..][k - j] == s[k];
        }
      }
    }
  }

  /** A string that starts and ends with a visible character is its own trim. */
  lemma TrimUntrimmed(s: string)
    requires s != [] ==> !IsTrimmable(s[0]) && !IsTrimmable(s[|s| - 1])
    ensures Trim(s) == s
  {
  }

  lemma TrimStartOfTrimmable(s: string)
    requires AllTrimmable(s)
    ensures TrimStart(s) == []
  {
    if s != [] {
      TrimStartOfTrimmable(s[1..]);
    }
  }

  predicate StartsWith(s: string, prefix: string) {
    |prefix| <= |s| && s[..|prefix|] == prefix
  }

  predicate EndsWith(s: string, suffix: string) {
    |suffix| <= |s| && s[|s| - |suffix|..] == suffix
  }

  predicate OccursAt(s: string, sub: string, i: int) {
    0 <= i <= |s| - |sub| && s[i..i + |sub|] == sub
  }

  /** `String.contains`, scanning left to right. */
  predicate Contains(s: string, sub: string)
    decreases |s|
  {
    StartsWith(s, sub) || (|s| > 0 && Contains(s[1..], sub))
  }

  /** `Contains` agrees with the positional definition of a substring occurrence. */
  lemma {:induction false} ContainsIff(s: string, sub: string)
    ensures Contains(s, sub) <==> exists i :: OccursAt(s, sub, i)
    decreases |s|
  {
    if |s| > 0 {
      ContainsIff(s[1..], sub);
    }
    if StartsWith(s, sub) {
      assert OccursAt(s, sub, 0);
    } else if |s| > 0 && Contains(s[1..], sub) {
      var i :| OccursAt(s[1..], sub, i);
      assert s[1..][i..i + |sub|] == s[i + 1..i + 1 + |sub|];
      assert OccursAt(s, sub, i + 1);
    }
    if exists i :: OccursAt(s, sub, i) {
      var i :| OccursAt(s, sub, i);
      if i > 0 {
        assert s[1..][i - 1..i - 1 + |sub|] == s[i..i + |sub|];
        assert OccursAt(s[1..], sub, i - 1);
      }
    }
  }

  /** Every string contains itself and the empty string. */
  lemma ContainsSelf(s: string)
    ensures Contains(s, s) && Contains(s, [])
  {
  }

  /** `String.replace(char, char)`. */
  function ReplaceChar(s: string, from: char, to: char): (r: string)
    ensures |r| == |s|
    ensures forall i :: 0 <= i < |s| ==> r[i] == (if s[i] == from then to else s[i])
  {
    if s == [] then [] else [if s[0] == from then to else s[0]] + ReplaceChar(s[1..], from, to)
  }

  function Concat(parts: seq<string>): string {
    if parts == [] then [] else parts[0] + Concat(parts[1..])
  }

  lemma ConcatAppend(a: seq<string>, b: seq<string>)
    ensures Concat(a + b) == Concat(a) + Concat(b)
  {
    if a != [] {
      assert (a + b)[0] == a[0];
      assert (a + b)[1..] == a[1..] + b;
      ConcatAppend(a[1..], b);
      assert Concat(a + b) == (a + b)[0] + Concat((a + b)[1..]);
    } else {
      assert a + b == b;
    }
  }

  /** The characters of `s` that are not separators, in order. */
  function RemoveChars(s: string, seps: set<char>): (r: string)
    ensures |r| <= |s|
    ensures forall i :: 0 <= i < |r| ==> r[i] !in seps
  {
    if s == [] then []
    else if s[0] in seps then RemoveChars(s[1..], seps)
    else [s[0]] + RemoveChars(s[1..], seps)
  }

  function CountChars(s: string, seps: set<char>): nat {
    if s == [] then 0 else (if s[0] in seps then 1 else 0) + CountChars(s[1..], seps)
  }

  predicate NoneIn(s: string, seps: set<char>) {
    forall i :: 0 <= i < |s| ==> s[i] !in seps
  }

  /** The pieces between separators, before `split` drops trailing empty pieces.
      One more piece than there are separators; the pieces hold every other character. */
  function Fields(s: string, seps: set<char>): (r: seq<string>)
    ensures |r| == CountChars(s, seps) + 1
    ensures Concat(r) == RemoveChars(s, seps)
    ensures forall k :: 0 <= k < |r| ==> NoneIn(r[k], seps)
  {
    if s == [] then [[]]
    else
      var rest := Fields(s[1..], seps);
      if s[0] in seps then [[]] + rest
      else [[s[0]] + rest[0]] + rest[1..]
  }

  /** Joining the pieces with the one separator in use gives the input back. */
  function JoinWith(parts: seq<string>, sep: char): string
    requires |parts| >= 1
  {
    if |parts| == 1 then parts[0] else parts[0] + [sep] + JoinWith(parts[1..], sep)
  }

  lemma {:induction false} FieldsJoinRoundTrip(s: string, sep: char)
    ensures JoinWith(Fields(s, {sep}), sep) == s
  {
    if s != [] {
      FieldsJoinRoundTrip(s[1..], sep);
      var rest := Fields(s[1..], {sep});
      if s[0] == sep {
        assert s == [sep] + s[1..];
      } else if |rest| == 1 {
        assert s == [s[0]] + s[1..];
      } else {
        assert ([[s[0]] + rest[0]] + rest[1..])[1..] == rest[1..];
        assert s == [s[0]] + s[1..];
      }
    }
  }

  function DropTrailingEmpty(parts: seq<string>): (r: seq<string>)
    ensures |r| <= |parts| && r == parts[..|r|]
    ensures forall k :: |r| <= k < |parts| ==> parts[k] == []
    ensures r == [] || r[|r| - 1] != []
  {
    if parts == [] || parts[|parts| - 1] != [] then parts
    else DropTrailingEmpty(parts[..|parts| - 1])
  }

  /** `String.split(regex)` for a regex that matches exactly one separator character:
      an input without any separator comes back whole (so `""` gives `[""]`), otherwise the
      pieces between separators with trailing empty pieces removed. */
  function Split(s: string, seps: set<char>): (r: seq<string>)
  {
    if s == [] then [[]] else DropTrailingEmpty(Fields(s, seps))
  }

  /** What `split` promises: no piece holds a separator, the pieces hold every other
      character in order, and only a separator-only input splits to nothing. */
  lemma SplitProperties(s: string, seps: set<char>)
    ensures forall k :: 0 <= k < |Split(s, seps)| ==> NoneIn(Split(s, seps)[k], seps)
    ensures Concat(Split(s, seps)) == RemoveChars(s, seps)
    ensures s != [] && Split(s, seps) != [] ==> Split(s, seps)[|Split(s, seps)| - 1] != []
    ensures Split(s, seps) == [] <==> s != [] && RemoveChars(s, seps) == []
  {
    if s != [] {
      var f := Fields(s, seps);
      var r := DropTrailingEmpty(f);
      assert f == r + f[|r|..];
      ConcatAppend(r, f[|r|..]);
      EmptyConcat(f[|r|..]);
    }
  }

  /** An input without a separator comes back as the one piece. */
  lemma SplitWithoutSeparator(s: string, seps: set<char>)
    requires NoneIn(s, seps)
    ensures Split(s, seps) == [s]
  {
    if s != [] {
      NoSeparatorOnePiece(s, seps);
    }
  }

  lemma EmptyConcat(parts: seq<string>)
    requires forall k :: 0 <= k < |parts| ==> parts[k] == []
    ensures Concat(parts) == []
  {
  }

  lemma NoSeparatorOnePiece(s: string, seps: set<char>)
    requires NoneIn(s, seps)
    ensures Fields(s, seps) == [s]
    ensures RemoveChars(s, seps) == s
  {
    if s != [] {
      NoSeparatorOnePiece(s[1..], seps);
      assert s == [s[0]] + s[1..];
    }
  }

  /** `String.compareTo`: lexicographic on characters, a proper prefix first. */
  predicate LexLess(a: string, b: string) {
    if a == [] then b != []
    else if b == [] then false
    else if a[0] != b[0] then a[0] < b[0]
    else LexLess(a[1..], b[1..])
  }

  lemma {:induction false} LexLessIrreflexive(a: string)
    ensures !LexLess(a, a)
  {
    if a != [] {
      LexLessIrreflexive(a[1..]);
    }
  }

  lemma {:induction false} LexLessTotal(a: string, b: string)
    ensures a == b || LexLess(a, b) || LexLess(b, a)
  {
    if a != [] && b != [] && a[0] == b[0] {
      LexLessTotal(a[1..], b[1..]);
      if a[1..] == b[1..] {
        assert a == [a[0]] + a[1..] && b == [b[0]] + b[1..];
      }
    }
  }

  lemma {:induction false} LexLessAsymmetric(a: string, b: string)
    ensures !(LexLess(a, b) && LexLess(b, a))
  {
    if a != [] && b != [] && a[0] == b[0] {
      LexLessAsymmetric(a[1..], b[1..]);
    }
  }

  lemma {:induction false} LexLessTransitive(a: string, b: string, c: string)
    requires LexLess(a, b) && LexLess(b, c)
    ensures LexLess(a, c)
  {
    if a != [] && b != [] && c != [] && a[0] == b[0] && b[0] == c[0] {
      LexLessTransitive(a[1..], b[1..], c[1..]);
    }
  }

  // ---------------------------------------------------------------------------------------
  // Regular-expression building blocks

  /** Length of the longest prefix of `t` whose characters all satisfy `p`: what a greedy
      `[class]*` consumes. */
  function Run(t: string, p: char -> bool): (n: nat)
    ensures n <= |t|
    ensures forall i :: 0 <= i < n ==> p(t[i])
    ensures n == |t| || !p(t[n])
  {
    if t != [] && p(t[0]) then 1 + Run(t[1..], p) else 0
  }

  /** A run is determined by the first character that stops it. */
  lemma {:induction false} RunIs(t: string, p: char -> bool, n: nat)
    requires n <= |t| && (n == |t| || !p(t[n]))
    requires forall i :: 0 <= i < n ==> p(t[i])
    ensures Run(t, p) == n
  {
    if n > 0 {
      RunIs(t[1..], p, n - 1);
    }
  }

  /** `RunIs` for the run that starts at offset `off` of `s`. */
  lemma RunAt(s: string, off: nat, p: char -> bool, n: nat)
    requires off + n <= |s| && (off + n == |s| || !p(s[off + n]))
    requires forall i :: off <= i < off + n ==> p(s[i])
    ensures Run(s[off..], p) == n
  {
    RunIs(s[off..], p, n);
  }

  /** The characters a run at offset `off` covers, indexed in `s` itself. */
  lemma RunCovers(s: string, off: nat, p: char -> bool)
    requires off <= |s|
    ensures forall i :: off <= i < off + Run(s[off..], p) ==> p(s[i])
  {
    forall i | off <= i < off + Run(s[off..], p)
      ensures p(s[i])
    {
      assert s[off..][i - off] == s[i];
    }
  }

  /** `Matcher.find` from position `from`: the leftmost position where the pattern, given as
      a function from the remaining text to the length of the match there, matches. That it
      is the leftmost is `FindFromIsLeftmost`. */
  function FindFrom(s: string, m: string -> Option<nat>, from: nat): (r: Option<(nat, nat)>)
    requires from <= |s|
    ensures r.Some? ==> from <= r.value.0 <= |s| && m(s[r.value.0..]) == Some(r.value.1)
    decreases |s| - from
  {
    if m(s[from..]).Some? then Some((from, m(s[from..]).value))
    else if from == |s| then None
    else FindFrom(s, m, from + 1)
  }

  /** The pattern does not match at position `q`. */
  predicate NoMatchAt(s: string, m: string -> Option<nat>, q: int) {
    0 <= q <= |s| && m(s[q..]).None?
  }

  /** No position before the one found matches; with nothing found, no position matches. */
  lemma {:induction false} FindFromIsLeftmost(s: string, m: string -> Option<nat>, from: nat)
    requires from <= |s|
    ensures FindFrom(s, m, from).Some? ==> forall q :: from <= q < FindFrom(s, m, from).value.0 ==> NoMatchAt(s, m, q)
    ensures FindFrom(s, m, from).None? ==> forall q :: from <= q <= |s| ==> NoMatchAt(s, m, q)
    decreases |s| - from
  {
    if m(s[from..]).None? && from < |s| {
      FindFromIsLeftmost(s, m, from + 1);
    }
  }

  function Find(s: string, m: string -> Option<nat>): Option<(nat, nat)> {
    FindFrom(s, m, 0)
  }
}

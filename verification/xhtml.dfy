/** The markup cleaner the input reader applies to every sort and include field: four
    `replaceAll` passes, in order, for a leading `<![CDATA[`, a trailing `]]>`, every tag
    `<(?:[^>"']|"[^"]*"|'[^']*')*>` and every entity `&\w*[&;]`.

    Both the tag and the entity pattern are deterministic: a tag starting at a '<' ends at
    the first '>' that lies outside a quoted run, and an entity is '&', the whole run of
    word characters after it and then '&' or ';'. Each pass is therefore a left-to-right
    scanner (`TagLength`, `EntityLength`), proved equal to the pattern's grammar
    (`IsTag`, `IsEntity`). */
module Xhtml {
  import opened Results
  import opened Text

  const CdataOpen: string := "<![CDATA["
  const CdataClose: string := "]]>"

  // ---------------------------------------------------------------------------------------
  // CDATA wrapper

  /** `\A<!\[CDATA\[` replaced by nothing: the opening only at the very start. */
  function StripCdataOpen(s: string): (r: string)
    ensures StartsWith(s, CdataOpen) ==> s == CdataOpen + r
    ensures !StartsWith(s, CdataOpen) ==> r == s
  {
    if StartsWith(s, CdataOpen) then s[|CdataOpen|..] else s
  }

  /** `\]\]>\Z` replaced by nothing: `\Z` also stands before one final line terminator
      ("\r\n" counting as one), which is kept. */
  function StripCdataClose(s: string): (r: string)
    ensures EndsWith(s, CdataClose) ==> s == r + CdataClose
    ensures (!EndsWith(s, CdataClose) && |s| >= 4 && IsLineTerminator(s[|s| - 1])
             && s[|s| - 4..|s| - 1] == CdataClose)
            ==> |r| == |s| - 3 && s == r[..|r| - 1] + CdataClose + [r[|r| - 1]]
    ensures |r| == |s| || |r| == |s| - 3
    ensures NoneIn(s, {']'}) ==> r == s
  {
    NoBracketNoClose(s);
    if EndsWith(s, CdataClose) then s[..|s| - 3]
    else if CloseBeforeTerminator(s) then
      assert s == s[..|s| - 4] + s[|s| - 4..|s| - 1] + [s[|s| - 1]];
      s[..|s| - 4] + [s[|s| - 1]]
    else if CloseBeforeCrLf(s) then s[..|s| - 5] + "\r\n"
    else s
  }

  /** `]]>` followed by one line terminator ends the text. */
  predicate CloseBeforeTerminator(s: string) {
    |s| >= 4 && IsLineTerminator(s[|s| - 1]) && s[|s| - 4..|s| - 1] == CdataClose
  }

  /** `]]>` followed by "\r\n" ends the text. */
  predicate CloseBeforeCrLf(s: string) {
    |s| >= 5 && s[|s| - 2..] == "\r\n" && s[|s| - 5..|s| - 2] == CdataClose
  }

  /** Without a ']' no closing marker can be found. */
  lemma NoBracketNoClose(s: string)
    ensures NoneIn(s, {']'}) ==> !EndsWith(s, CdataClose) && !CloseBeforeTerminator(s) && !CloseBeforeCrLf(s)
  {
    if EndsWith(s, CdataClose) {
      assert s[|s| - 3] == s[|s| - 3..][0] == ']';
    }
    if CloseBeforeTerminator(s) {
      assert s[|s| - 4] == s[|s| - 4..|s| - 1][0] == ']';
    }
    if CloseBeforeCrLf(s) {
      assert s[|s| - 5] == s[|s| - 5..|s| - 2][0] == ']';
    }
  }

  // ---------------------------------------------------------------------------------------
  // Tags

  predicate IsQuote(c: char) {
    c == '"' || c == '\''
  }

  /** A body character that is a token on its own: `[^>"']`. */
  predicate IsPlainTagChar(c: char) {
    c != '>' && !IsQuote(c)
  }

  /** The tag body grammar `(?:[^>"']|"[^"]*"|'[^']*')*`: plain characters and quoted runs. */
  predicate IsBody(b: string)
    decreases |b|
  {
    || b == []
    || (IsPlainTagChar(b[0]) && IsBody(b[1..]))
    || (IsQuote(b[0]) && exists j :: 1 <= j < |b| && ClosesQuote(b, j) && IsBody(b[j + 1..]))
  }

  /** Position `j` of `b` holds the quote that `b[0]` opened, the first one after it. */
  predicate ClosesQuote(b: string, j: int) {
    1 <= j < |b| && b[j] == b[0] && NoneIn(b[1..j], {b[0]})
  }

  /** A whole match of the tag pattern. */
  predicate IsTag(t: string) {
    |t| >= 2 && t[0] == '<' && t[|t| - 1] == '>' && IsBody(t[1..|t| - 1])
  }

  /** Position of the first `q` in `t`. */
  function IndexOf(t: string, q: char): (r: Option<nat>)
    ensures r.Some? ==> r.value < |t| && t[r.value] == q && NoneIn(t[..r.value], {q})
    ensures r.None? ==> NoneIn(t, {q})
  {
    if t == [] then None
    else if t[0] == q then Some(0)
    else match IndexOf(t[1..], q)
      case None => None
      case Some(j) => assert t[..j + 1] == [t[0]] + t[1..][..j]; Some(j + 1)
  }

  lemma {:induction false} IndexOfFirst(t: string, q: char, j: nat)
    requires j < |t| && t[j] == q && NoneIn(t[..j], {q})
    ensures IndexOf(t, q) == Some(j)
  {
    if j > 0 {
      assert t[0] == t[..j][0];
      assert t[1..][..j - 1] == t[1..j];
      IndexOfFirst(t[1..], q, j - 1);
    }
  }

  /** Scans a tag body: the index of the '>' that closes it, skipping quoted runs; `None`
      when the input ends first or a quote is never closed. */
  function BodyLength(t: string): (r: Option<nat>)
    ensures r.Some? ==> r.value < |t| && t[r.value] == '>'
    decreases |t|
  {
    if t == [] then None
    else if t[0] == '>' then Some(0)
    else if IsQuote(t[0]) then
      match IndexOf(t[1..], t[0])
      case None => None
      case Some(j) =>
        match BodyLength(t[j + 2..])
        case None => None
        case Some(k) => Some(j + 2 + k)
    else
      match BodyLength(t[1..])
      case None => None
      case Some(k) => Some(k + 1)
  }

  /** The scanner finds a body exactly when the grammar admits one ending before a '>';
      the body is unique, so the pattern has only one way to match from a given '<'. */
  lemma {:induction false} BodyLengthIff(t: string, k: nat)
    ensures BodyLength(t) == Some(k) <==> k < |t| && t[k] == '>' && IsBody(t[..k])
    decreases |t|
  {
    if BodyLength(t) == Some(k) {
      BodyLengthSound(t);
    }
    if k < |t| && t[k] == '>' && IsBody(t[..k]) {
      BodyLengthComplete(t, k);
    }
  }

  lemma {:induction false} BodyLengthSound(t: string)
    requires BodyLength(t).Some?
    ensures IsBody(t[..BodyLength(t).value])
    decreases |t|
  {
    var k := BodyLength(t).value;
    if t[0] == '>' {
      assert t[..k] == [];
    } else if IsQuote(t[0]) {
      var j := IndexOf(t[1..], t[0]).value;
      var rest := t[j + 2..];
      BodyLengthSound(rest);
      var b := t[..k];
      assert b[j + 1] == t[1..][j];
      assert b[1..j + 1] == t[1..][..j];
      assert b[j + 2..] == rest[..BodyLength(rest).value];
      assert ClosesQuote(b, j + 1) && IsBody(b[j + 2..]);
    } else {
      BodyLengthSound(t[1..]);
      assert t[..k][1..] == t[1..][..k - 1];
    }
  }

  lemma {:induction false} BodyLengthComplete(t: string, k: nat)
    requires k < |t| && t[k] == '>' && IsBody(t[..k])
    ensures BodyLength(t) == Some(k)
    decreases |t|, 1
  {
    if k > 0 {
      var b := t[..k];
      assert b[0] == t[0];
      if IsPlainTagChar(t[0]) {
        assert t[1..][..k - 1] == b[1..];
        BodyLengthComplete(t[1..], k - 1);
      } else {
        BodyLengthCompleteQuoted(t, k);
      }
    }
  }

  lemma {:induction false} BodyLengthCompleteQuoted(t: string, k: nat)
    requires 0 < k < |t| && t[k] == '>' && IsBody(t[..k]) && !IsPlainTagChar(t[0])
    ensures BodyLength(t) == Some(k)
    decreases |t|, 0
  {
    var j := QuotedSplit(t, k);
    BodyLengthComplete(t[j + 1..], k - j - 1);
    BodyLengthAfterQuote(t, j, k - j - 1);
  }

  /** A body that opens with a quote: where the quote closes, and the body after it. */
  lemma QuotedSplit(t: string, k: nat) returns (j: nat)
    requires 0 < k < |t| && t[k] == '>' && IsBody(t[..k]) && !IsPlainTagChar(t[0])
    ensures 1 <= j < k && IsQuote(t[0]) && IndexOf(t[1..], t[0]) == Some(j - 1)
    ensures k - j - 1 < |t[j + 1..]| && t[j + 1..][k - j - 1] == '>' && IsBody(t[j + 1..][..k - j - 1])
  {
    var b := t[..k];
    assert b[0] == t[0];
    j :| 1 <= j < |b| && ClosesQuote(b, j) && IsBody(b[j + 1..]);
    assert b[j] == b[0] && NoneIn(b[1..j], {b[0]});
    assert b[1..j] == t[1..j];
    assert t[1..][..j - 1] == t[1..j];
    IndexOfFirst(t[1..], t[0], j - 1);
    assert b[j + 1..] == t[j + 1..k];
    assert t[j + 1..][..k - j - 1] == t[j + 1..k];
  }

  /** A quoted run closed at `j`, then a body of length `m`. */
  lemma BodyLengthAfterQuote(t: string, j: nat, m: nat)
    requires 1 <= j < |t| && IsQuote(t[0]) && IndexOf(t[1..], t[0]) == Some(j - 1)
    requires BodyLength(t[j + 1..]) == Some(m)
    ensures BodyLength(t) == Some(j + 1 + m)
  {
    assert t != [] && t[0] != '>';
    assert t[j - 1 + 2..] == t[j + 1..];
  }

  /** Length of the tag starting at the front of `s`, if one does. */
  function TagLength(s: string): (r: Option<nat>)
    ensures r.Some? ==> 2 <= r.value <= |s|
  {
    if |s| > 0 && s[0] == '<' then
      match BodyLength(s[1..])
      case None => None
      case Some(k) => Some(k + 2)
    else None
  }

  /** The scanner and the pattern agree: `TagLength(s)` is `k` exactly when the first `k`
      characters of `s` are a tag, and that tag is the only one starting there. */
  lemma TagLengthIff(s: string, k: nat)
    ensures TagLength(s) == Some(k) <==> k <= |s| && IsTag(s[..k])
  {
    if |s| > 0 && s[0] == '<' && 2 <= k <= |s| {
      BodyLengthIff(s[1..], k - 2);
      assert s[1..][..k - 2] == s[..k][1..k - 1];
    }
  }

  /** A '>' inside a quoted run does not close the tag. */
  lemma QuotedCloserExample()
    ensures TagLength("<'>'>") == Some(5)
    ensures TagLength("<'>") == None
  {
    assert "<'>'>"[1..] == "'>'>";
    assert "'>'>"[1..] == ">'>";
    assert IndexOf(">'>", '\'') == Some(1);
    assert "'>'>"[3..] == ">";
    assert "<'>"[1..] == "'>";
    assert "'>"[1..] == ">";
  }

  /** `replaceAll` of the tag pattern: each leftmost tag is removed; a '<' that opens no tag
      stays and scanning resumes after it. */
  function StripTags(s: string): (r: string)
    ensures |r| <= |s|
    decreases |s|
  {
    if s == [] then []
    else match TagLength(s)
      case Some(k) => StripTags(s[k..])
      case None => [s[0]] + StripTags(s[1..])
  }

  /** Text without '<' has no tag to lose. */
  lemma {:induction false} StripTagsPlain(s: string)
    requires NoneIn(s, {'<'})
    ensures StripTags(s) == s
  {
    if s != [] {
      assert s[0] != '<';
      assert StripTags(s) == [s[0]] + StripTags(s[1..]);
      StripTagsPlain(s[1..]);
      assert s == [s[0]] + s[1..];
    }
  }

  /** A field that is exactly one tag cleans to nothing. */
  lemma WholeTagVanishes(t: string)
    requires IsTag(t)
    ensures StripTags(t) == []
  {
    TagLengthIff(t, |t|);
    assert t[..|t|] == t;
  }

  // ---------------------------------------------------------------------------------------
  // Entities

  predicate IsEntityEnd(c: char) {
    c == '&' || c == ';'
  }

  /** A whole match of `&\w*[&;]`. */
  predicate IsEntity(e: string) {
    && |e| >= 2 && e[0] == '&' && IsEntityEnd(e[|e| - 1])
    && forall i :: 1 <= i < |e| - 1 ==> IsWordChar(e[i])
  }

  predicate HasEntity(s: string) {
    exists i, k :: 0 <= i <= k <= |s| && IsEntity(s[i..k])
  }

  /** Length of the entity at the front of `s`, if one starts there. */
  function EntityLength(s: string): (r: Option<nat>)
    ensures r.Some? ==> 2 <= r.value <= |s|
  {
    if |s| > 0 && s[0] == '&' then
      var w := Run(s[1..], IsWordChar);
      if w + 1 < |s| && IsEntityEnd(s[w + 1]) then Some(w + 2) else None
    else None
  }

  /** The scanner and the pattern agree, and the match from a given '&' is unique. */
  lemma EntityLengthIff(s: string, k: nat)
    ensures EntityLength(s) == Some(k) <==> k <= |s| && IsEntity(s[..k])
  {
    if k <= |s| && IsEntity(s[..k]) {
      assert forall i :: 0 <= i < k - 2 ==> s[1..][i] == s[..k][i + 1];
      assert s[1..][k - 2] == s[..k][k - 1];
      RunIs(s[1..], IsWordChar, k - 2);
    }
  }

  /** `replaceAll` of the entity pattern, scanning left to right. */
  function StripEntities(s: string): (r: string)
    ensures |r| <= |s|
    decreases |s|
  {
    if s == [] then []
    else match EntityLength(s)
      case Some(k) => StripEntities(s[k..])
      case None => [s[0]] + StripEntities(s[1..])
  }

  /** Text without '&' passes through the entity pass unchanged, whatever follows it. */
  lemma {:induction false} StripEntitiesKeepsPrefix(w: string, t: string)
    requires NoneIn(w, {'&'})
    ensures StripEntities(w + t) == w + StripEntities(t)
  {
    if w != [] {
      var u := w + t;
      assert u[0] == w[0] && u[0] != '&';
      assert EntityLength(u).None?;
      assert u[1..] == w[1..] + t;
      assert StripEntities(u) == [u[0]] + StripEntities(u[1..]);
      StripEntitiesKeepsPrefix(w[1..], t);
      assert [w[0]] + (w[1..] + StripEntities(t)) == w + StripEntities(t);
    } else {
      assert w + t == t;
    }
  }

  /** The entity pass leaves no entity behind: what survives of an '&' that opened none is
      followed by its word run and then a character that cannot end an entity. */
  lemma {:induction false} NoEntityAfterStripping(s: string)
    ensures !HasEntity(StripEntities(s))
    decreases |s|
  {
    if s != [] {
      match EntityLength(s)
      case Some(k) =>
        NoEntityAfterStripping(s[k..]);
      case None =>
        NoEntityAfterStripping(s[1..]);
        NoEntityAfterKept(s);
    }
  }

  /** Keeping a first character that opens no entity adds none. */
  lemma NoEntityAfterKept(s: string)
    requires s != [] && EntityLength(s).None?
    requires !HasEntity(StripEntities(s[1..]))
    ensures !HasEntity([s[0]] + StripEntities(s[1..]))
  {
    var tail := StripEntities(s[1..]);
    var r := [s[0]] + tail;
    forall i, k | 0 <= i <= k <= |r|
      ensures !IsEntity(r[i..k])
    {
      if i > 0 {
        assert r[i..k] == tail[i - 1..k - 1];
      } else if k >= 2 && s[0] == '&' {
        NoEntityAtFront(s, k);
      } else if k >= 2 {
        assert r[i..k][0] == s[0];
      }
    }
  }

  /** An '&' that opens no entity in the input opens none in the output either. */
  lemma NoEntityAtFront(s: string, k: nat)
    requires |s| > 0 && s[0] == '&' && EntityLength(s).None?
    requires 2 <= k <= 1 + |StripEntities(s[1..])|
    ensures !IsEntity(([s[0]] + StripEntities(s[1..]))[..k])
  {
    var t := s[1..];
    var w := Run(t, IsWordChar);
    assert w < |t| ==> !IsEntityEnd(t[w]);
    WordRunSurvives(t, w);
    var x := [s[0]] + StripEntities(t);
    assert forall i :: 1 <= i <= w ==> x[i] == t[i - 1];
    AmpersandRunNotEntity(x, w, k);
  }

  /** The entity pass keeps a leading word run and the character that stops it, when that
      character does not start an entity. */
  lemma WordRunSurvives(t: string, w: nat)
    requires w == Run(t, IsWordChar)
    requires w < |t| ==> !IsEntityEnd(t[w])
    ensures |StripEntities(t)| >= w && StripEntities(t)[..w] == t[..w]
    ensures w < |t| ==> |StripEntities(t)| > w && StripEntities(t)[w] == t[w]
  {
    var u := StripEntities(t);
    assert NoneIn(t[..w], {'&'});
    assert t == t[..w] + t[w..];
    StripEntitiesKeepsPrefix(t[..w], t[w..]);
    if w < |t| {
      assert t[w..] == [t[w]] + t[w + 1..];
      assert StripEntities(t[w..]) == [t[w]] + StripEntities(t[w + 1..]);
    }
  }

  /** An '&', a run of word characters, then a character that neither continues nor ends
      the run: no prefix of that is an entity. */
  lemma AmpersandRunNotEntity(x: string, w: nat, k: nat)
    requires |x| > w && x[0] == '&'
    requires forall i :: 1 <= i <= w ==> IsWordChar(x[i])
    requires w + 1 < |x| ==> !IsEntityEnd(x[w + 1]) && !IsWordChar(x[w + 1])
    requires 2 <= k <= |x|
    ensures !IsEntity(x[..k])
  {
    var e := x[..k];
    if k - 1 <= w {
      assert IsWordChar(e[k - 1]);
      NotEntity(e, k - 1);
    } else {
      assert e[w + 1] == x[w + 1];
      NotEntity(e, w + 1);
    }
  }

  /** A character that can neither continue nor end an entity, seen where it would have to. */
  lemma NotEntity(e: string, j: nat)
    requires 1 <= j < |e|
    requires if j == |e| - 1 then !IsEntityEnd(e[j]) else !IsWordChar(e[j])
    ensures !IsEntity(e)
  {
  }

  // ---------------------------------------------------------------------------------------
  // The whole cleaner

  /** `stripXhtml`: the four passes in source order. */
  function StripXhtml(dirty: string): (clean: string)
    ensures |clean| <= |dirty|
    ensures !HasEntity(clean)
  {
    var s3 := StripTags(StripCdataClose(StripCdataOpen(dirty)));
    NoEntityAfterStripping(s3);
    StripEntities(s3)
  }

  /** Text with no markup characters comes out as it went in. */
  lemma StripXhtmlPlain(dirty: string)
    requires NoneIn(dirty, {'<', '&', ']'})
    ensures StripXhtml(dirty) == dirty
  {
    if |dirty| > 0 {
      assert dirty[0] != CdataOpen[0];
    }
    assert StripCdataClose(StripCdataOpen(dirty)) == dirty;
    StripTagsPlain(dirty);
    StripEntitiesKeepsPrefix(dirty, []);
    assert dirty + [] == dirty;
  }
}

/** The text sanitizer: `removeHTML`, `decodeHTMLEntities` and `formatText`.
    A string is a sequence of Unicode scalar values; every character the
    three functions compare against is ASCII. */
module Sanitizer {
  import opened Wrappers

  // ---------------------------------------------------------------------------
  // Tag stripping: `str.replace(/<\/?[^>]+(>|$)/g, "")`
  //
  // The optional `/` never changes what matches: `</` followed by one or more
  // non-'>' characters is itself '<' followed by one or more non-'>'
  // characters. So a tag run starts at a '<' whose next character exists and
  // is not '>', and it ends just after the first '>' that follows, or at the
  // end of the string. The global flag makes the scan resume after each run.
  // ---------------------------------------------------------------------------

  /** A tag run starts at index `i` of `s`. */
  predicate TagStartsAt(s: string, i: int)
  {
    0 <= i && i + 1 < |s| && s[i] == '<' && s[i + 1] != '>'
  }

  /** `s` holds no tag run anywhere. */
  predicate TagFree(s: string)
  {
    forall i :: 0 <= i < |s| ==> !TagStartsAt(s, i)
  }

  /** What follows the first '>' of `t`, or "" when `t` has none
      (the `(>|$)` end of a tag run). */
  function SkipPastGt(t: string): (r: string)
    ensures |r| <= |t|
    ensures r == "" || (exists k :: 0 <= k < |t| && t[k] == '>' && r == t[k + 1..])
    ensures '>' !in t ==> r == ""
    decreases |t|
  {
    if |t| == 0 then ""
    else if t[0] == '>' then t[1..]
    else
      var r := SkipPastGt(t[1..]);
      assert r != "" ==> exists k :: 0 <= k < |t| && t[k] == '>' && r == t[k + 1..] by {
        if r != "" {
          var k :| 0 <= k < |t[1..]| && t[1..][k] == '>' && r == t[1..][k + 1..];
          assert t[k + 1] == '>' && r == t[k + 2..];
        }
      }
      r
  }

  /** The left-to-right scan of the global replace: every tag run is deleted,
      every other character is kept in place. */
  function StripTags(s: string): (r: string)
    ensures |r| <= |s|
    decreases |s|
  {
    if |s| == 0 then ""
    else if TagStartsAt(s, 0) then StripTags(SkipPastGt(s[1..]))
    else [s[0]] + StripTags(s[1..])
  }

  /** `removeHTML`: a missing or empty input gives "". */
  function RemoveHtml(str: Option<string>): (r: string)
    ensures str == None || str == Some("") ==> r == ""
    ensures str.Some? ==> |r| <= |str.value|
  {
    match str
    case None => ""
    case Some(s) => if s == "" then "" else StripTags(s)
  }

  /** `a` can be obtained from `b` by deleting characters. */
  predicate IsSubsequence(a: string, b: string)
    decreases |b|
  {
    if |a| == 0 then true
    else if |b| == 0 then false
    else (a[0] == b[0] && IsSubsequence(a[1..], b[1..])) || IsSubsequence(a, b[1..])
  }

  lemma {:induction false} SubsequenceOfSuffix(a: string, b: string, k: nat)
    requires k <= |b|
    requires IsSubsequence(a, b[k..])
    ensures IsSubsequence(a, b)
    decreases k
  {
    if k > 0 {
      assert b[k - 1..][1..] == b[k..];
      assert IsSubsequence(a, b[k - 1..]);
      SubsequenceOfSuffix(a, b, k - 1);
    }
  }

  /** Stripping only deletes: the characters that survive appear in the
      input, in the same order. */
  lemma {:induction false} StripTagsIsSubsequence(s: string)
    ensures IsSubsequence(StripTags(s), s)
    decreases |s|
  {
    if |s| == 0 {
    } else if TagStartsAt(s, 0) {
      var t := SkipPastGt(s[1..]);
      assert StripTags(s) == StripTags(t);
      StripTagsIsSubsequence(t);
      var k := SkipPastGtIsSuffix(s[1..]);
      assert t == s[k + 1..];
      SubsequenceOfSuffix(StripTags(s), s, k + 1);
    } else {
      var r := StripTags(s);
      var r' := StripTags(s[1..]);
      assert r == [s[0]] + r';
      StripTagsIsSubsequence(s[1..]);
      assert r[0] == s[0] && r[1..] == r';
    }
  }

  /** What `SkipPastGt` leaves is a suffix. */
  lemma {:induction false} SkipPastGtIsSuffix(t: string) returns (k: nat)
    ensures k <= |t| && SkipPastGt(t) == t[k..]
    decreases |t|
  {
    if |t| == 0 {
      k := 0;
    } else if t[0] == '>' {
      k := 1;
    } else {
      var k' := SkipPastGtIsSuffix(t[1..]);
      if SkipPastGt(t[1..]) == "" {
        k := |t|;
      } else {
        k := k' + 1;
        assert t[1..][k'..] == t[k..];
      }
    }
  }

  /** Text without '<' is kept verbatim, and stripping continues after it. */
  lemma {:induction false} StripTagsKeepsPlainText(p: string, rest: string)
    requires '<' !in p
    ensures StripTags(p + rest) == p + StripTags(rest)
    decreases |p|
  {
    if |p| > 0 {
      assert p[0] in p;
      assert !TagStartsAt(p + rest, 0);
      assert (p + rest)[1..] == p[1..] + rest;
      assert StripTags(p + rest) == [p[0]] + StripTags(p[1..] + rest);
      StripTagsKeepsPlainText(p[1..], rest);
      assert p == [p[0]] + p[1..];
    } else {
      assert p + rest == rest;
    }
  }

  /** A '<', one or more non-'>' characters and a '>' are deleted together. */
  lemma DeletesClosedTag(body: string, rest: string)
    requires |body| > 0 && '>' !in body
    ensures StripTags("<" + body + ">" + rest) == StripTags(rest)
  {
    var s := "<" + body + ">" + rest;
    assert s[0] == '<' && s[1] == body[0];
    assert TagStartsAt(s, 0);
    assert s[1..] == body + ">" + rest;
    SkipPastGtAfter(body, rest);
    assert StripTags(s) == StripTags(SkipPastGt(s[1..]));
  }

  /** A '<' followed by one or more non-'>' characters up to the end of the
      string is deleted. */
  lemma DeletesUnclosedTag(body: string)
    requires |body| > 0 && '>' !in body
    ensures StripTags("<" + body) == ""
  {
    var s := "<" + body;
    assert TagStartsAt(s, 0);
    assert s[1..] == body;
  }

  /** A '<' directly followed by '>' is not a tag: both are kept. */
  lemma KeepsEmptyBrackets(rest: string)
    ensures StripTags("<>" + rest) == "<>" + StripTags(rest)
  {
    var s := "<>" + rest;
    assert !TagStartsAt(s, 0);
    assert s[1..] == ">" + rest;
    assert !TagStartsAt(s[1..], 0);
    assert s[1..][1..] == rest;
  }

  /** A '<' that ends the text is not a tag either: `[^>]+` needs a
      character after it, so it is kept. */
  lemma KeepsTrailingLt(p: string)
    requires '<' !in p
    ensures StripTags(p + "<") == p + "<"
  {
    StripTagsKeepsPlainText(p, "<");
    assert !TagStartsAt("<", 0);
    assert StripTags("<") == "<";
  }

  lemma {:induction false} SkipPastGtAfter(body: string, rest: string)
    requires '>' !in body
    ensures SkipPastGt(body + ">" + rest) == rest
    decreases |body|
  {
    if |body| > 0 {
      assert (body + ">" + rest)[1..] == body[1..] + ">" + rest;
      SkipPastGtAfter(body[1..], rest);
    } else {
      assert body + ">" + rest == ">" + rest;
    }
  }

  /** The first character of the result, when it is kept. */
  lemma StripTagsHead(s: string)
    requires |s| > 0 && s[0] != '<'
    ensures |StripTags(s)| > 0 && StripTags(s)[0] == s[0]
  {
  }

  /** Every '<' that survives stripping is the last character or is
      directly followed by '>'. */
  lemma {:induction false} StripTagsIsTagFree(s: string)
    ensures TagFree(StripTags(s))
    decreases |s|
  {
    if |s| == 0 {
    } else if TagStartsAt(s, 0) {
      StripTagsIsTagFree(SkipPastGt(s[1..]));
    } else {
      var r := StripTags(s);
      var r' := StripTags(s[1..]);
      StripTagsIsTagFree(s[1..]);
      assert r == [s[0]] + r';
      if |s| > 1 && s[0] == '<' {
        StripTagsHead(s[1..]);
      }
      forall i | 0 <= i < |r|
        ensures !TagStartsAt(r, i)
      {
        if i > 0 {
          assert !TagStartsAt(r', i - 1);
        }
      }
    }
  }

  /** Tag-free text is left unchanged. */
  lemma {:induction false} StripTagsOfTagFree(s: string)
    requires TagFree(s)
    ensures StripTags(s) == s
    decreases |s|
  {
    if |s| > 0 {
      assert !TagStartsAt(s, 0);
      forall i | 0 <= i < |s[1..]|
        ensures !TagStartsAt(s[1..], i)
      {
        assert !TagStartsAt(s, i + 1);
      }
      StripTagsOfTagFree(s[1..]);
    }
  }

  /** Stripping twice is stripping once. */
  lemma StripTagsIdempotent(s: string)
    ensures StripTags(StripTags(s)) == StripTags(s)
  {
    StripTagsIsTagFree(s);
    StripTagsOfTagFree(StripTags(s));
  }

  /** The same for `removeHTML` itself. */
  lemma RemoveHtmlIdempotent(str: Option<string>)
    ensures RemoveHtml(Some(RemoveHtml(str))) == RemoveHtml(str)
  {
    if str.Some? && str.value != "" {
      StripTagsIdempotent(str.value);
    }
  }

  /** Text without '<' passes through `removeHTML` unchanged. */
  lemma RemoveHtmlOfPlainText(s: string)
    requires '<' !in s
    ensures RemoveHtml(Some(s)) == s
  {
    StripTagsKeepsPlainText(s, "");
    assert s + "" == s;
  }

  // ---------------------------------------------------------------------------
  // Entity decoding: ten global replace passes, in table order
  // ---------------------------------------------------------------------------

  /** `text.replace(new RegExp(pat, 'g'), rep)` for a pattern without regular
      expression operators and a replacement without `$`: occurrences are
      found left to right, never overlap, and the replacement is not scanned
      again. */
  function ReplaceAll(s: string, pat: string, rep: string): (r: string)
    requires |pat| > 0
    decreases |s|
  {
    if |s| == 0 then ""
    else if |pat| <= |s| && s[..|pat|] == pat then rep + ReplaceAll(s[|pat|..], pat, rep)
    else [s[0]] + ReplaceAll(s[1..], pat, rep)
  }

  /** The entity table of `decodeHTMLEntities`: name and replacement. */
  const Entities: seq<(string, string)> := [
    ("amp", "&"),
    ("apos", "'"),
    ("#x27", "'"),
    ("#x2F", "/"),
    ("#39", "'"),
    ("#47", "/"),
    ("lt", "<"),
    ("gt", ">"),
    ("nbsp", " "),
    ("quot", "\"")
  ]

  /** The text of a character reference: `&name;`. */
  function Reference(name: string): (r: string)
    ensures |r| == |name| + 2 && r[0] == '&' && r[|r| - 1] == ';'
    ensures r[1..|r| - 1] == name
  {
    "&" + name + ";"
  }

  /** The text after the first `n` passes of the loop. */
  function DecodePasses(text: string, n: nat): string
    requires n <= |Entities|
  {
    if n == 0 then text
    else ReplaceAll(DecodePasses(text, n - 1), Reference(Entities[n - 1].0), Entities[n - 1].1)
  }

  /** The value `decodeHTMLEntities` returns. */
  function Decoded(text: string): string
  {
    DecodePasses(text, |Entities|)
  }

  /** `decodeHTMLEntities`: the `for` loop that reassigns `text` once per
      table entry. */
  method DecodeHtmlEntities(text: string) returns (r: string)
    ensures r == Decoded(text)
  {
    var entities := Entities;
    r := text;
    for i := 0 to |entities|
      invariant r == DecodePasses(text, i)
    {
      r := ReplaceAll(r, "&" + entities[i].0 + ";", entities[i].1);
    }
  }

  /** `formatText`: strip the tags first, then decode what is left. */
  method FormatText(str: Option<string>) returns (r: string)
    ensures r == Decoded(RemoveHtml(str))
    ensures str == None || str == Some("") ==> r == ""
  {
    if str == None || str == Some("") {
      DecodeWithoutAmpersand("");
      return "";
    }
    var stripped := RemoveHtml(str);
    r := DecodeHtmlEntities(stripped);
  }

  // ---------------------------------------------------------------------------
  // Properties of decoding
  // ---------------------------------------------------------------------------

  /** `s` starts with `pat`. */
  predicate StartsWith(s: string, pat: string)
  {
    |pat| <= |s| && s[..|pat|] == pat
  }

  /** A pass whose pattern starts with '&' leaves text without '&' as it is. */
  lemma {:induction false} ReplaceAllWithoutAmpersand(s: string, pat: string, rep: string)
    requires |pat| > 0 && pat[0] == '&' && '&' !in s
    ensures ReplaceAll(s, pat, rep) == s
    decreases |s|
  {
    if |s| > 0 {
      assert s[0] in s;
      if |pat| <= |s| {
        assert s[..|pat|][0] == s[0] != pat[0];
      }
      ReplaceAllWithoutAmpersand(s[1..], pat, rep);
    }
  }

  /** Such a pass also copies a leading stretch without '&'. */
  lemma {:induction false} ReplaceAllCopiesPrefix(p: string, t: string, pat: string, rep: string)
    requires |pat| > 0 && pat[0] == '&' && '&' !in p
    ensures ReplaceAll(p + t, pat, rep) == p + ReplaceAll(t, pat, rep)
    decreases |p|
  {
    if |p| > 0 {
      var s := p + t;
      assert s[0] == p[0] && p[0] in p;
      if |pat| <= |s| {
        assert s[..|pat|][0] == s[0] != pat[0];
      }
      assert s[1..] == p[1..] + t;
      assert ReplaceAll(s, pat, rep) == [p[0]] + ReplaceAll(p[1..] + t, pat, rep);
      ReplaceAllCopiesPrefix(p[1..], t, pat, rep);
      assert p == [p[0]] + p[1..];
    } else {
      assert p + t == t;
    }
  }

  /** Once no '&' is left, the remaining passes change nothing. */
  lemma {:induction false} PassesWithoutAmpersand(text: string, m: nat, n: nat)
    requires m <= n <= |Entities|
    requires '&' !in DecodePasses(text, m)
    ensures DecodePasses(text, n) == DecodePasses(text, m)
    decreases n - m
  {
    if m < n {
      PassesWithoutAmpersand(text, m, n - 1);
      ReplaceAllWithoutAmpersand(DecodePasses(text, m), Reference(Entities[n - 1].0), Entities[n - 1].1);
    }
  }

  /** `decodeHTMLEntities` leaves a string without '&' unchanged. */
  lemma DecodeWithoutAmpersand(text: string)
    requires '&' !in text
    ensures Decoded(text) == text
  {
    PassesWithoutAmpersand(text, 0, |Entities|);
  }

  /** A well-formed entity name: no '&' and no ';'. */
  predicate NameChars(name: string)
  {
    '&' !in name && ';' !in name
  }

  /** The characters of the table's values, and the '&' that starts every
      reference. */
  const ValueChars: set<char> := {'&', '\'', '/', '<', '>', ' ', '"'}

  /** No character of `w` is a value of the table or a '&'. */
  predicate NameText(w: string)
  {
    forall j :: 0 <= j < |w| ==> w[j] !in ValueChars
  }

  /** The names of the table are well formed and distinct, every value is
      one character that no name holds, and no value other than that of
      `amp` is '&'. */
  lemma EntityTableFacts(k: nat)
    requires k < |Entities|
    ensures NameChars(Entities[k].0) && '<' !in Entities[k].0
    ensures NameText(Entities[k].0 + ";")
    ensures |Entities[k].1| == 1 && Entities[k].1[0] in ValueChars
    ensures k > 0 ==> '&' !in Entities[k].1
    ensures forall j :: 0 <= j < |Entities| && j != k ==> Entities[j].0 != Entities[k].0
  {
  }

  /** A reference to one name never starts the text of a reference to another. */
  lemma ReferencesDiffer(a: string, b: string, t: string)
    requires NameChars(a) && NameChars(b) && a != b
    ensures !StartsWith(Reference(b) + t, Reference(a))
  {
    var s := Reference(b) + t;
    var ra := Reference(a);
    if |ra| <= |s| {
      var i: nat;
      if |a| < |b| {
        i := |a| + 1;
        assert b[|a|] in b;
        assert s[i] == b[|a|] != ';' == ra[i];
      } else if |a| > |b| {
        i := |b| + 1;
        assert a[|b|] in a;
        assert s[i] == ';' != a[|b|] == ra[i];
      } else {
        var j :| 0 <= j < |a| && a[j] != b[j];
        i := j + 1;
        assert s[i] == b[j] && ra[i] == a[j];
      }
      assert s[..|ra|][i] != ra[i];
    }
  }

  /** A pass for another name copies a reference and goes on after it. */
  lemma PassSkipsReference(name: string, rest: string, other: string, rep: string)
    requires NameChars(name) && NameChars(other) && other != name
    ensures var pat := Reference(other);
            ReplaceAll(Reference(name) + rest, pat, rep) == Reference(name) + ReplaceAll(rest, pat, rep)
  {
    var pat := Reference(other);
    var s := Reference(name) + rest;
    ReferencesDiffer(other, name, rest);
    var tail := name + ";";
    assert '&' !in tail;
    assert s[1..] == tail + rest;
    ReplaceAllCopiesPrefix(tail, rest, pat, rep);
    assert Reference(name) == "&" + tail;
  }

  /** The pass for a name turns a reference to it into its value. */
  lemma PassReplacesReference(rest: string, pat: string, rep: string)
    requires |pat| > 0
    ensures ReplaceAll(pat + rest, pat, rep) == rep + ReplaceAll(rest, pat, rep)
  {
    var s := pat + rest;
    assert s[..|pat|] == pat && s[|pat|..] == rest;
  }

  /** A piece of HTML text: a plain character, a reference to the entry of
      the entity table at `index`, or a reference to a name the table
      does not list. */
  datatype Piece = Char(c: char) | Listed(index: nat) | Unlisted(name: string)

  /** A listed piece names an entry of the table; an unlisted one names a
      proper name outside it. Any character is a plain piece. */
  predicate ProperPiece(p: Piece)
  {
    match p
    case Char(_) => true
    case Listed(k) => k < |Entities|
    case Unlisted(name) => NameChars(name) && forall k :: 0 <= k < |Entities| ==> Entities[k].0 != name
  }

  /** `t` starts with the name of entry `k` and a ';': a '&' just before
      `t` would complete a reference to that entry. */
  predicate StartsWithName(t: string, k: nat)
    requires k < |Entities|
  {
    StartsWith(t, Entities[k].0 + ";")
  }

  /** The '&' that a piece leaves in the text, if any, is not completed into
      a reference by the text `after` it: a plain '&' is not followed by any
      listed name and ';', and the '&' that `&amp;` decodes to is not
      followed by a name that a later pass handles (see
      `DecodesAmpersandFirst` for what happens then). */
  predicate AmpersandStays(p: Piece, after: string)
  {
    && (p == Char('&') ==> forall k :: 0 <= k < |Entities| ==> !StartsWithName(after, k))
    && (p == Listed(0) ==> forall k :: 1 <= k < |Entities| ==> !StartsWithName(after, k))
  }

  /** Pieces whose decoding does not interact: every piece is proper, and
      no '&' in the text starts a reference other than the one its own
      piece stands for. */
  predicate Unambiguous(ps: seq<Piece>)
    decreases |ps|
  {
    |ps| == 0 || (ProperPiece(ps[0]) && AmpersandStays(ps[0], Render(ps[1..], 0)) && Unambiguous(ps[1..]))
  }

  /** The text of one piece once the first `n` table entries are decoded. */
  function PieceText(p: Piece, n: nat): string
  {
    match p
    case Char(c) => [c]
    case Listed(k) =>
      if k >= |Entities| then ""
      else if k < n then Entities[k].1
      else Reference(Entities[k].0)
    case Unlisted(name) => Reference(name)
  }

  /** The text of the pieces once the first `n` table entries are decoded:
      listed references below `n` appear as their value, all other
      references as written. `Render(ps, 0)` is the HTML source text. */
  function Render(ps: seq<Piece>, n: nat): string
  {
    if |ps| == 0 then "" else PieceText(ps[0], n) + Render(ps[1..], n)
  }

  /** The text of a proper piece is never empty, and unless the piece is a
      plain character it starts with a value or with '&'. */
  lemma PieceTextHead(p: Piece, n: nat)
    requires ProperPiece(p)
    ensures |PieceText(p, n)| > 0
    ensures !p.Char? ==> PieceText(p, n)[0] in ValueChars
  {
    match p
    case Char(_) =>
    case Listed(k) => EntityTableFacts(k);
    case Unlisted(_) =>
  }

  /** Text of name characters at the start of a piece's text and what
      follows it begins in a plain character piece. */
  lemma HeadIsPlain(p: Piece, n: nat, rest: string, w: string)
    requires ProperPiece(p) && NameText(w) && |w| > 0
    requires StartsWith(PieceText(p, n) + rest, w)
    ensures p == Char(w[0]) && StartsWith(rest, w[1..])
  {
    var t := PieceText(p, n) + rest;
    assert t[0] == w[0] by { assert t[..|w|][0] == t[0]; }
    PieceTextHead(p, n);
    assert w[0] !in ValueChars;
    assert rest[..|w| - 1] == t[..|w|][1..];
  }

  lemma NameTextTail(w: string)
    requires NameText(w) && |w| > 0
    ensures NameText(w[1..])
  {
    forall j | 0 <= j < |w[1..]|
      ensures w[1..][j] !in ValueChars
    {
      assert w[1..][j] == w[j + 1];
    }
  }

  /** A character in front of text that starts with `w[1..]`. */
  lemma ConsStartsWith(t: string, w: string)
    requires |w| > 0 && StartsWith(t, w[1..])
    ensures StartsWith([w[0]] + t, w)
  {
    assert ([w[0]] + t)[..|w|] == [w[0]] + t[..|w| - 1];
  }

  /** Decoding never makes a name appear: text made only of name characters
      at the start of the pieces after `n` passes was already there in the
      source text, spelled by plain characters. */
  lemma {:induction false} RenderKeepsSpelling(qs: seq<Piece>, n: nat, w: string)
    requires Unambiguous(qs) && NameText(w)
    ensures StartsWith(Render(qs, n), w) ==> StartsWith(Render(qs, 0), w)
    decreases |w|
  {
    if |w| > 0 && StartsWith(Render(qs, n), w) {
      assert |qs| > 0;
      HeadIsPlain(qs[0], n, Render(qs[1..], n), w);
      NameTextTail(w);
      RenderKeepsSpelling(qs[1..], n, w[1..]);
      ConsStartsWith(Render(qs[1..], 0), w);
      assert Render(qs, 0) == [w[0]] + Render(qs[1..], 0);
    }
  }

  /** A pass copies a '&' that does not start its pattern. */
  lemma AmpersandCopied(rest: string, w: string, rep: string)
    requires !StartsWith(rest, w)
    ensures ReplaceAll("&" + rest, "&" + w, rep) == "&" + ReplaceAll(rest, "&" + w, rep)
  {
    var s := "&" + rest;
    var pat := "&" + w;
    assert !StartsWith(s, pat) by {
      if |pat| <= |s| {
        assert s[..|pat|][1..] == rest[..|w|];
        assert pat[1..] == w;
      }
    }
    assert s[1..] == rest;
  }

  /** Pass `n` copies a '&' that a piece leaves and goes on after it. */
  lemma BareAmpersandPass(ps: seq<Piece>, n: nat)
    requires n < |Entities| && |ps| > 0 && Unambiguous(ps)
    requires ps[0] == Char('&') || (ps[0] == Listed(0) && n >= 1)
    ensures var pat := Reference(Entities[n].0);
            ReplaceAll(Render(ps, n), pat, Entities[n].1) == "&" + ReplaceAll(Render(ps[1..], n), pat, Entities[n].1)
  {
    var rest := Render(ps[1..], n);
    var w := Entities[n].0 + ";";
    EntityTableFacts(n);
    RenderKeepsSpelling(ps[1..], n, w);
    assert !StartsWithName(Render(ps[1..], 0), n);
    assert Render(ps, n) == "&" + rest;
    AmpersandCopied(rest, w, Entities[n].1);
    assert Reference(Entities[n].0) == "&" + w;
  }

  /** Pass `n` turns the text after `n` passes into the text after `n + 1`. */
  lemma {:induction false} PassDecodesOneEntry(ps: seq<Piece>, n: nat)
    requires n < |Entities|
    requires Unambiguous(ps)
    ensures ReplaceAll(Render(ps, n), Reference(Entities[n].0), Entities[n].1) == Render(ps, n + 1)
    decreases |ps|
  {
    var pat := Reference(Entities[n].0);
    var rep := Entities[n].1;
    if |ps| > 0 {
      var rest := Render(ps[1..], n);
      PassDecodesOneEntry(ps[1..], n);
      EntityTableFacts(n);
      match ps[0]
      case Char(c) =>
        if c == '&' {
          BareAmpersandPass(ps, n);
        } else {
          ReplaceAllCopiesPrefix([c], rest, pat, rep);
        }
      case Listed(k) =>
        EntityTableFacts(k);
        if k < n {
          if k == 0 {
            BareAmpersandPass(ps, n);
          } else {
            ReplaceAllCopiesPrefix(Entities[k].1, rest, pat, rep);
          }
        } else if k == n {
          PassReplacesReference(rest, pat, rep);
        } else {
          PassSkipsReference(Entities[k].0, rest, Entities[n].0, rep);
        }
      case Unlisted(name) =>
        PassSkipsReference(name, rest, Entities[n].0, rep);
    }
  }

  /** The passes follow any list of texts, one per stage, in which pass
      `k` turns the text of stage `k` into the text of stage `k + 1`:
      passes `m` to `n - 1` take stage `m` to stage `n`. */
  lemma {:induction false} PassesFollowStages(text: string, stages: seq<string>, m: nat, n: nat)
    requires m <= n <= |Entities| && |stages| == |Entities| + 1
    requires forall k :: m <= k < n ==>
               ReplaceAll(stages[k], Reference(Entities[k].0), Entities[k].1) == stages[k + 1]
    requires DecodePasses(text, m) == stages[m]
    ensures DecodePasses(text, n) == stages[n]
    decreases n - m
  {
    if m < n {
      assert DecodePasses(text, m + 1)
          == ReplaceAll(DecodePasses(text, m), Reference(Entities[m].0), Entities[m].1);
      PassesFollowStages(text, stages, m + 1, n);
    }
  }

  /** The texts of the pieces at each stage of decoding. */
  function Stages(ps: seq<Piece>): (r: seq<string>)
    ensures |r| == |Entities| + 1
    ensures forall k :: 0 <= k < |r| ==> r[k] == Render(ps, k)
  {
    seq(|Entities| + 1, k requires 0 <= k => Render(ps, k))
  }

  /** `decodeHTMLEntities` replaces every listed reference, `&amp;`
      included, by its table value, and leaves plain characters (a bare '&'
      included) and references to unlisted names verbatim, as long as no
      '&' in the text completes a reference that a later pass decodes. */
  lemma DecodesListedEntities(ps: seq<Piece>)
    requires Unambiguous(ps)
    ensures Decoded(Render(ps, 0)) == Render(ps, |Entities|)
  {
    var stages := Stages(ps);
    forall k | 0 <= k < |Entities|
      ensures ReplaceAll(stages[k], Reference(Entities[k].0), Entities[k].1) == stages[k + 1]
    {
      PassDecodesOneEntry(ps, k);
    }
    PassesFollowStages(Render(ps, 0), stages, 0, |Entities|);
  }

  /** No listed name starts with a character outside `a#lgnq`. */
  lemma NoNameAfter(t: string)
    requires |t| > 0 && t[0] !in "a#lgnq"
    ensures forall k :: 0 <= k < |Entities| ==> !StartsWithName(t, k)
  {
    forall k | 0 <= k < |Entities|
      ensures !StartsWithName(t, k)
    {
      var w := Entities[k].0 + ";";
      assert w[0] == Entities[k].0[0];
      if |w| <= |t| {
        assert t[..|w|][0] == t[0];
      }
    }
  }

  /** Putting a piece in front of unambiguous pieces. */
  lemma ConsPiece(p: Piece, ps: seq<Piece>)
    requires ProperPiece(p) && AmpersandStays(p, Render(ps, 0)) && Unambiguous(ps)
    ensures Unambiguous([p] + ps)
    ensures forall n :: Render([p] + ps, n) == PieceText(p, n) + Render(ps, n)
  {
    assert ([p] + ps)[1..] == ps;
  }

  /** A bare '&', `&amp;` and `&lt;` side by side are decoded without
      interacting: `&&amp;&lt;` becomes `&&<`. */
  lemma DecodesAdjacentReferences()
    ensures Decoded("&&amp;&lt;") == "&&<"
  {
    var s0: seq<Piece> := [];
    ConsPiece(Listed(6), s0);
    var s1 := [Listed(6)] + s0;
    NoNameAfter(Render(s1, 0));
    ConsPiece(Listed(0), s1);
    var s2 := [Listed(0)] + s1;
    NoNameAfter(Render(s2, 0));
    ConsPiece(Char('&'), s2);
    var ps := [Char('&')] + s2;
    DecodesListedEntities(ps);
    assert Render(ps, 0) == "&&amp;&lt;";
    assert Render(ps, |Entities|) == "&&<";
  }

  /** Decoding never lengthens the text: every value is one character and
      every pattern is longer. */
  lemma {:induction false} ReplaceAllShortens(s: string, pat: string, rep: string)
    requires |pat| > 0 && |rep| <= |pat|
    ensures |ReplaceAll(s, pat, rep)| <= |s|
    decreases |s|
  {
    if |s| > 0 {
      if StartsWith(s, pat) {
        ReplaceAllShortens(s[|pat|..], pat, rep);
      } else {
        ReplaceAllShortens(s[1..], pat, rep);
      }
    }
  }

  lemma {:induction false} DecodePassesShortens(text: string, n: nat)
    requires n <= |Entities|
    ensures |DecodePasses(text, n)| <= |text|
  {
    if n > 0 {
      DecodePassesShortens(text, n - 1);
      ReplaceAllShortens(DecodePasses(text, n - 1), Reference(Entities[n - 1].0), Entities[n - 1].1);
    }
  }

  /** The first pass turns `&amp;` between text without '&' into '&'. */
  lemma AmpersandPass(p: string, q: string)
    requires '&' !in p && '&' !in q
    ensures ReplaceAll(p + "&amp;" + q, "&amp;", "&") == p + "&" + q
  {
    ReplaceAllCopiesPrefix(p, "&amp;" + q, "&amp;", "&");
    assert p + "&amp;" + q == p + ("&amp;" + q);
    PassReplacesReference(q, "&amp;", "&");
    ReplaceAllWithoutAmpersand(q, "&amp;", "&");
    assert p + ("&" + q) == p + "&" + q;
  }

  /** A later pass leaves a lone '&' that no ';' follows. */
  lemma LaterPassKeepsAmpersand(p: string, q: string, k: nat)
    requires 1 <= k < |Entities|
    requires '&' !in p && '&' !in q && ';' !in q
    ensures ReplaceAll(p + "&" + q, Reference(Entities[k].0), Entities[k].1) == p + "&" + q
  {
    var pat := Reference(Entities[k].0);
    var rep := Entities[k].1;
    var t := "&" + q;
    assert !StartsWith(t, pat) by {
      if |pat| <= |t| {
        assert q[|pat| - 2] in q;
        assert t[..|pat|][|pat| - 1] != pat[|pat| - 1];
      }
    }
    assert t[1..] == q;
    assert ReplaceAll(t, pat, rep) == [t[0]] + ReplaceAll(q, pat, rep);
    ReplaceAllWithoutAmpersand(q, pat, rep);
    ReplaceAllCopiesPrefix(p, t, pat, rep);
    assert p + t == p + "&" + q;
  }

  /** `&amp;` is decoded once, by the first pass: the '&' it leaves is
      kept by the other passes when no ';' follows it. */
  lemma {:induction false} LoneAmpersandKept(p: string, q: string, n: nat)
    requires 1 <= n <= |Entities|
    requires '&' !in p && '&' !in q && ';' !in q
    ensures DecodePasses(p + "&amp;" + q, n) == p + "&" + q
  {
    if n > 1 {
      LoneAmpersandKept(p, q, n - 1);
      LaterPassKeepsAmpersand(p, q, n - 1);
    } else {
      assert Reference(Entities[0].0) == "&amp;";
      AmpersandPass(p, q);
    }
  }

  /** `&amp;` alone decodes to '&'. */
  lemma DecodesAmpersand()
    ensures Decoded("&amp;") == "&"
  {
    LoneAmpersandKept("", "", |Entities|);
    assert "" + "&amp;" + "" == "&amp;";
    assert "" + "&" + "" == "&";
  }

  /** A reference that no pass from `m` to `n - 1` names survives them. */
  lemma {:induction false} ReferenceSurvives(text: string, name: string, m: nat, n: nat)
    requires m <= n <= |Entities|
    requires NameChars(name) && DecodePasses(text, m) == Reference(name)
    requires forall k :: m <= k < n ==> Entities[k].0 != name
    ensures DecodePasses(text, n) == Reference(name)
    decreases n - m
  {
    if m < n {
      ReferenceSurvives(text, name, m, n - 1);
      var pat := Reference(Entities[n - 1].0);
      EntityTableFacts(n - 1);
      PassSkipsReference(name, "", Entities[n - 1].0, Entities[n - 1].1);
      assert Reference(name) + "" == Reference(name);
    }
  }

  /** The '&' that `&amp;` produces can start a reference that a later pass
      decodes: `&amp;lt;` becomes `<`. */
  lemma DecodesAmpersandFirst()
    ensures Decoded("&amp;lt;") == "<"
  {
    var text := "&amp;lt;";
    assert text == "&amp;" + "lt;";
    PassReplacesReference("lt;", "&amp;", "&");
    ReplaceAllWithoutAmpersand("lt;", "&amp;", "&");
    var ps := [Listed(6)];
    assert Unambiguous(ps);
    var stages := Stages(ps);
    forall k | 1 <= k < |Entities|
      ensures ReplaceAll(stages[k], Reference(Entities[k].0), Entities[k].1) == stages[k + 1]
    {
      PassDecodesOneEntry(ps, k);
    }
    assert Render(ps, 1) == Reference("lt") + "";
    assert DecodePasses(text, 1) == "&" + "lt;" == Render(ps, 1);
    PassesFollowStages(text, stages, 1, |Entities|);
    assert Render(ps, |Entities|) == "<" + "";
  }

  /** The `amp` pass runs once: `&amp;amp;` becomes `&amp;`. */
  lemma DecodesAmpersandOnce()
    ensures Decoded("&amp;amp;") == "&amp;"
  {
    var text := "&amp;amp;";
    assert text == "&amp;" + "amp;";
    PassReplacesReference("amp;", "&amp;", "&");
    ReplaceAllWithoutAmpersand("amp;", "&amp;", "&");
    assert DecodePasses(text, 1) == "&" + "amp;" == Reference("amp");
    ReferenceSurvives(text, "amp", 1, |Entities|);
  }

  // ---------------------------------------------------------------------------
  // Properties of formatText
  // ---------------------------------------------------------------------------

  /** Unambiguous text with references but without '<' is only decoded by `formatText`;
      a '<' that decoding produces is never stripped. */
  lemma FormatTextOfMarkupFreeText(ps: seq<Piece>)
    requires Unambiguous(ps)
    requires '<' !in Render(ps, 0)
    ensures Decoded(RemoveHtml(Some(Render(ps, 0)))) == Render(ps, |Entities|)
  {
    RemoveHtmlOfPlainText(Render(ps, 0));
    DecodesListedEntities(ps);
  }

  /** Escaped markup survives `formatText` as markup, because decoding comes
      after stripping: `&lt;b&gt;` becomes `<b>`. */
  lemma FormatTextKeepsEscapedMarkup()
    ensures Decoded(RemoveHtml(Some("&lt;b&gt;"))) == "<b>"
  {
    var ps := [Listed(6), Char('b'), Listed(7)];
    assert Render(ps, 0) == "&lt;b&gt;";
    FormatTextOfMarkupFreeText(ps);
    assert PieceText(Listed(7), |Entities|) == ">";
    assert Render(ps[2..], |Entities|) == ">";
    assert PieceText(Char('b'), |Entities|) == "b";
    assert Render(ps[1..], |Entities|) == "b>";
    assert PieceText(Listed(6), |Entities|) == "<";
    assert Render(ps, |Entities|) == "<b>";
  }

  /** A closing tag `</t>` is deleted. */
  lemma DeletesEndTag(tag: string)
    requires '>' !in tag
    ensures StripTags("</" + tag + ">") == ""
  {
    var s := "</" + tag + ">";
    assert s[0] == '<' && s[1] == '/';
    assert s[1..] == "/" + tag + ">" + "";
    SkipPastGtAfter("/" + tag, "");
  }

  lemma AppendAssoc(a: string, b: string, c: string)
    ensures a + b + c == a + (b + c)
  {
  }

  /** An element around plain text is stripped down to the text. */
  lemma StripsElement(tag: string, x: string)
    requires |tag| > 0 && '>' !in tag && '<' !in x
    ensures StripTags("<" + tag + ">" + x + "</" + tag + ">") == x
  {
    var opening := "<" + tag + ">";
    var closing := "</" + tag + ">";
    DeletesEndTag(tag);
    StripTagsKeepsPlainText(x, closing);
    assert x + "" == x;
    DeletesClosedTag(tag, x + closing);
    AppendAssoc(opening, x, "</");
    AppendAssoc(opening, x + "</", tag);
    AppendAssoc(opening, x + "</" + tag, ">");
    AppendAssoc(x, "</", tag);
    AppendAssoc(x, "</" + tag, ">");
  }

  /** A literal element does not survive `formatText`: `<b>x</b>` becomes
      `x` for any tag name `b` and plain text `x`. */
  lemma FormatTextRemovesMarkup(tag: string, x: string)
    requires |tag| > 0 && '>' !in tag
    requires '<' !in x && '&' !in x
    ensures Decoded(RemoveHtml(Some("<" + tag + ">" + x + "</" + tag + ">"))) == x
  {
    StripsElement(tag, x);
    DecodeWithoutAmpersand(x);
  }

  /** `&amp;` in plain text is decoded once: `a &amp; b` becomes `a & b`. */
  lemma FormatTextDecodesAmpersand(p: string, q: string)
    requires '<' !in p && '<' !in q
    requires '&' !in p && '&' !in q && ';' !in q
    ensures Decoded(RemoveHtml(Some(p + "&amp;" + q))) == p + "&" + q
  {
    RemoveHtmlOfPlainText(p + "&amp;" + q);
    LoneAmpersandKept(p, q, |Entities|);
  }
}

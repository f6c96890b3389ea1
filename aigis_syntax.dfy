/**
 * The module-embed directive `!![title](path)` and its expansion.
 *
 * The directive is recognised by the regular expression
 *     !!\[(.*)\]\(([-_.!~*¥'()a-zA-Z0-9;¥/?:¥@&=+¥$,%#]+)\)
 * used with the global flag.  This module models that expression as
 * JavaScript's regular-expression engine runs it: the match starting at the
 * leftmost position wins, the greedy title takes the longest line prefix
 * that still lets the rest match, and the greedy path then takes the
 * longest run that still ends in `)`.  A global replace then resumes
 * scanning just after each match.
 */
module AigisSyntax {
  import opened Common

  /** JavaScript's line terminators; `.` matches every other character. */
  predicate IsLineTerminator(c: char)
  {
    c == '\n' || c == '\r' || c == '\U{2028}' || c == '\U{2029}'
  }

  /** The character class of the path capture.  `¥` is the yen sign. */
  predicate IsPathChar(c: char)
  {
    ('a' <= c <= 'z') || ('A' <= c <= 'Z') || ('0' <= c <= '9') ||
    c == '-' || c == '_' || c == '.' || c == '!' || c == '~' || c == '*' ||
    c == '\U{A5}' || c == '\'' || c == '(' || c == ')' || c == ';' || c == '/' ||
    c == '?' || c == ':' || c == '@' || c == '&' || c == '=' || c == '+' ||
    c == '$' || c == ',' || c == '%' || c == '#'
  }

  /** The text begins with the directive's opening `!![`. */
  predicate Opens(text: string)
  {
    |text| >= 3 && text[0] == '!' && text[1] == '!' && text[2] == '['
  }

  /** The title capture `(.*)` can span [3, t): no line terminator in it. */
  predicate TitleSpan(text: string, t: int)
  {
    3 <= t <= |text| && forall i | 3 <= i < t :: !IsLineTerminator(text[i])
  }

  /** A path capture starting at k can close with the `)` at e. */
  predicate ClosesPath(text: string, k: int, e: int)
  {
    0 <= k < e < |text| &&
    (forall i | k <= i < e :: IsPathChar(text[i])) &&
    text[e] == ')'
  }

  /** The regular expression matches `text` from position 0, with the
      title occupying [3, t) and the path [t + 2, e), closed by `)` at e. */
  predicate IsMatch(text: string, t: int, e: int)
  {
    Opens(text) && TitleSpan(text, t) &&
    t + 1 < |text| && text[t] == ']' && text[t + 1] == '(' &&
    ClosesPath(text, t + 2, e)
  }

  datatype Match = Match(titleEnd: nat, pathEnd: nat)

  /** The end of the longest run of path characters starting at k. */
  function PathRunEnd(text: string, k: nat): (j: nat)
    requires k <= |text|
    ensures k <= j <= |text|
    ensures forall i | k <= i < j :: IsPathChar(text[i])
    ensures j == |text| || !IsPathChar(text[j])
    decreases |text| - k
  {
    if k == |text| || !IsPathChar(text[k]) then k else PathRunEnd(text, k + 1)
  }

  /** The last `)` strictly between k and j. */
  function LastClose(text: string, k: nat, j: nat): (r: Option<nat>)
    requires j <= |text|
    ensures r.Some? ==> k < r.value < j && text[r.value] == ')'
    ensures r.Some? ==> forall e | r.value < e < j :: text[e] != ')'
    ensures r.None? ==> forall e | k < e < j :: text[e] != ')'
    decreases j
  {
    if j <= k + 1 then None
    else if text[j - 1] == ')' then Some(j - 1)
    else LastClose(text, k, j - 1)
  }

  /** Where the greedy path capture starting at k closes: the largest e,
      if any, such that [k, e) holds only path characters and text[e] is `)`. */
  function PathEnd(text: string, k: nat): (r: Option<nat>)
    requires k <= |text|
    ensures r.Some? ==> ClosesPath(text, k, r.value)
    ensures r.Some? ==> forall e :: ClosesPath(text, k, e) ==> e <= r.value
    ensures r.None? ==> forall e :: !ClosesPath(text, k, e)
  {
    var j := PathRunEnd(text, k);
    var r := LastClose(text, k, j);
    forall e | ClosesPath(text, k, e)
      ensures e < j
    {
    }
    r
  }

  /** The first line terminator at or after i, or the end of the text. */
  function LineEnd(text: string, i: nat): (j: nat)
    requires i <= |text|
    ensures i <= j <= |text|
    ensures forall k | i <= k < j :: !IsLineTerminator(text[k])
    ensures j == |text| || IsLineTerminator(text[j])
    decreases |text| - i
  {
    if i == |text| || IsLineTerminator(text[i]) then i else LineEnd(text, i + 1)
  }

  /** The greedy title: try title ends t, t - 1, ..., 3 and take the first
      one after which `](` and a closable path follow. */
  function TitleSearch(text: string, t: nat): (r: Option<Match>)
    requires Opens(text) && TitleSpan(text, t)
    ensures r.Some? ==> IsMatch(text, r.value.titleEnd, r.value.pathEnd) && r.value.titleEnd <= t
    ensures r.Some? ==> forall t', e' :: IsMatch(text, t', e') && t' <= t ==>
                          t' < r.value.titleEnd || (t' == r.value.titleEnd && e' <= r.value.pathEnd)
    ensures r.None? ==> forall t', e' :: IsMatch(text, t', e') ==> t' > t
    decreases t
  {
    if t + 1 < |text| && text[t] == ']' && text[t + 1] == '(' && PathEnd(text, t + 2).Some? then
      Some(Match(t, PathEnd(text, t + 2).value))
    else
      assert forall e :: !IsMatch(text, t, e);
      if t == 3 then None else TitleSearch(text, t - 1)
  }

  /** The match of the regular expression that starts at position 0 of
      `text`, if there is one: among all ways to match, the one with the
      longest title and then the longest path. */
  function MatchPrefix(text: string): (r: Option<Match>)
    ensures r.Some? ==> IsMatch(text, r.value.titleEnd, r.value.pathEnd)
    ensures r.Some? ==> forall t, e :: IsMatch(text, t, e) ==>
                          t < r.value.titleEnd || (t == r.value.titleEnd && e <= r.value.pathEnd)
    ensures r.None? ==> forall t, e :: !IsMatch(text, t, e)
  {
    if !Opens(text) then None
    else
      var l := LineEnd(text, 3);
      forall t | TitleSpan(text, t)
        ensures t <= l
      {
      }
      TitleSearch(text, l)
  }

  /** Two maximal matches of the same text are the same match. */
  lemma {:induction false} MatchPrefixDeterminedByMatches(x: string, y: string)
    requires forall t, e :: IsMatch(x, t, e) <==> IsMatch(y, t, e)
    ensures MatchPrefix(x) == MatchPrefix(y)
  {
    if MatchPrefix(x).Some? {
      assert IsMatch(y, MatchPrefix(x).value.titleEnd, MatchPrefix(x).value.pathEnd);
    }
    if MatchPrefix(y).Some? {
      assert IsMatch(x, MatchPrefix(y).value.titleEnd, MatchPrefix(y).value.pathEnd);
    }
  }

  /** A match that dominates every other is the one the engine reports. */
  lemma GreatestMatchIsReported(text: string, t0: int, e0: int)
    requires IsMatch(text, t0, e0)
    requires forall t, e :: IsMatch(text, t, e) ==> t < t0 || (t == t0 && e <= e0)
    ensures MatchPrefix(text) == Some(Match(t0, e0))
  {
  }

  // ---------------------------------------------------------------------
  // The global replace as a segmentation of the text
  // ---------------------------------------------------------------------

  /** A piece of the scanned text: a character outside every match, or a
      whole match with its two captures. */
  datatype Piece = Char(c: char) | Directive(title: string, path: string)

  /** The text a piece was scanned from. */
  function Raw(p: Piece): string
  {
    match p
    case Char(c) => [c]
    case Directive(title, path) => "!![" + title + "](" + path + ")"
  }

  function Unscan(ps: seq<Piece>): string
  {
    if ps == [] then [] else Raw(ps[0]) + Unscan(ps[1..])
  }

  /** What the character class and `.` admit in the two captures. */
  predicate WellFormed(p: Piece)
  {
    p.Directive? ==>
      |p.path| > 0 &&
      (forall i | 0 <= i < |p.title| :: !IsLineTerminator(p.title[i])) &&
      (forall i | 0 <= i < |p.path| :: IsPathChar(p.path[i]))
  }

  /** The directive a match at (t, e) captures. */
  function Captures(text: string, t: int, e: int): Piece
    requires IsMatch(text, t, e)
  {
    Directive(text[3..t], text[t + 2..e])
  }

  /** A match is the raw text of the directive it captures, and its
      captures are what the pattern admits. */
  lemma MatchSpellsDirective(text: string, t: int, e: int)
    requires IsMatch(text, t, e)
    ensures WellFormed(Captures(text, t, e))
    ensures text == Raw(Captures(text, t, e)) + text[e + 1..]
  {
    CapturesWellFormed(text, t, e);
    var title, path := text[3..t], text[t + 2..e];
    calc {
      text;
      text[..3] + text[3..t] + text[t..t + 2] + text[t + 2..e] + text[e..e + 1] + text[e + 1..];
      "!![" + title + "](" + path + ")" + text[e + 1..];
    }
  }

  lemma CapturesWellFormed(text: string, t: int, e: int)
    requires IsMatch(text, t, e)
    ensures WellFormed(Captures(text, t, e))
  {
    var title, path := text[3..t], text[t + 2..e];
    assert forall i | 0 <= i < |title| :: title[i] == text[3 + i];
    assert forall i | 0 <= i < |path| :: path[i] == text[t + 2 + i];
  }

  /** The piece a search standing at the start of `text` emits: the
      leftmost greedy match if one starts here, else the character. */
  function Head(text: string): (p: Piece)
    requires text != []
    ensures WellFormed(p) && 0 < |Raw(p)| <= |text|
  {
    match MatchPrefix(text)
    case Some(m) =>
      MatchSpellsDirective(text, m.titleEnd, m.pathEnd);
      Captures(text, m.titleEnd, m.pathEnd)
    case None =>
      Char(text[0])
  }

  /** The head piece spells the beginning of the text. */
  lemma HeadSpells(text: string)
    requires text != []
    ensures text == Raw(Head(text)) + text[|Raw(Head(text))|..]
  {
    match MatchPrefix(text)
    case Some(m) => MatchSpellsDirective(text, m.titleEnd, m.pathEnd);
    case None => assert text == [text[0]] + text[1..];
  }

  /** The matches a global search finds, left to right and without overlap,
      with the text between them kept character by character.  Scanning
      loses nothing: the pieces spell the text again. */
  function Scan(text: string): (ps: seq<Piece>)
    ensures Unscan(ps) == text
    ensures forall i | 0 <= i < |ps| :: WellFormed(ps[i])
    decreases |text|
  {
    if text == [] then []
    else
      var p := Head(text);
      HeadSpells(text);
      [p] + Scan(text[|Raw(p)|..])
  }

  /** `moduleLink.test(md)`: some position of the text starts a match. */
  function HasMatch(text: string): (b: bool)
    ensures !b <==> forall s, t, e | 0 <= s <= |text| :: !IsMatch(text[s..], t, e)
    decreases |text|
  {
    if text == [] then false
    else if MatchPrefix(text).Some? then
      assert IsMatch(text[0..], MatchPrefix(text).value.titleEnd, MatchPrefix(text).value.pathEnd);
      true
    else
      SuffixesOfTail(text);
      HasMatch(text[1..])
  }

  lemma SuffixesOfTail(text: string)
    requires text != []
    ensures forall s | 1 <= s <= |text| :: text[s..] == text[1..][s - 1..]
  {
  }

  // ---------------------------------------------------------------------
  // Substitution
  // ---------------------------------------------------------------------

  /** The files a directive can read: contents by resolved path, and the
      path resolution `path.resolve(path.join('.', dir, name))`. */
  datatype FileSystem = FileSystem(files: map<string, string>, resolve: (string, string) -> string)

  /** The fenced block a directive becomes: the file's contents verbatim
      between an opening `html` fence line and a closing fence. */
  function Block(contents: string): (b: string)
    ensures |b| == |contents| + 14
    ensures b[..10] == "\n\n```html\n" && b[10..|b| - 4] == contents && b[|b| - 4..] == "\n```"
  {
    "\n\n```html\n" + contents + "\n```"
  }

  /** Concatenate two expansion results, the first failure winning. */
  function Join(a: Result<string>, b: Result<string>): Result<string>
  {
    if a.Err? then a else if b.Err? then b else Ok(a.value + b.value)
  }

  /** What one piece becomes: a kept character stays, a directive becomes
      the block of its file, or fails if that file does not exist. */
  function Replacement(fs: FileSystem, dir: string, p: Piece): (r: Result<string>)
    ensures r.Err? <==> p.Directive? && fs.resolve(dir, p.path) !in fs.files
    ensures r.Err? ==> p.Directive? && r.error == FileNotFound(fs.resolve(dir, p.path))
    ensures p.Char? ==> r == Ok([p.c])
    ensures r.Ok? && p.Directive? ==> r.value == Block(fs.files[fs.resolve(dir, p.path)])
  {
    match p
    case Char(c) => Ok([c])
    case Directive(_, path) =>
      var key := fs.resolve(dir, path);
      if key in fs.files then Ok(Block(fs.files[key])) else Err(FileNotFound(key))
  }

  /** Replace the pieces left to right, stopping at the first failure. */
  function Substitute(fs: FileSystem, dir: string, ps: seq<Piece>): (r: Result<string>)
    ensures r.Err? ==> exists i | 0 <= i < |ps| ::
      ps[i].Directive? && fs.resolve(dir, ps[i].path) !in fs.files &&
      r.error == FileNotFound(fs.resolve(dir, ps[i].path))
    ensures (forall i | 0 <= i < |ps| :: ps[i].Char?) ==> r.Ok?
  {
    if ps == [] then Ok([]) else Join(Replacement(fs, dir, ps[0]), Substitute(fs, dir, ps[1..]))
  }

  /** `md.replace(moduleLink, ...)`: every match replaced by the block of
      the file its path names. */
  function Expand(fs: FileSystem, dir: string, text: string): (r: Result<string>)
    ensures r.Err? ==> r.error.FileNotFound? && r.error.path !in fs.files
  {
    Substitute(fs, dir, Scan(text))
  }

  /** `_replaceAigisSyntax`: expand only when `test` finds a match. */
  function ReplaceAigisSyntax(fs: FileSystem, dir: string, md: string): (r: Result<string>)
    ensures r.Err? ==> HasMatch(md) && r.error.FileNotFound? && r.error.path !in fs.files
  {
    if HasMatch(md) then Expand(fs, dir, md) else Ok(md)
  }
}

/** What the expansion preserves, where it fails, and how it treats lines. */
module AigisSyntaxProperties {
  import opened Common
  import opened AigisSyntax

  lemma {:induction false} UnscanAppend(ps: seq<Piece>, qs: seq<Piece>)
    ensures Unscan(ps + qs) == Unscan(ps) + Unscan(qs)
    decreases |ps|
  {
    if ps == [] {
      assert ps + qs == qs;
    } else {
      assert (ps + qs)[1..] == ps[1..] + qs;
      UnscanAppend(ps[1..], qs);
    }
  }

  /** After emitting i pieces the search stands at offset s, the length
      of the text those pieces spell, and what it emits from there on is
      the scan of the rest of the text. */
  lemma {:induction false} ScanSuffix(text: string, i: nat)
    requires i <= |Scan(text)|
    ensures |Unscan(Scan(text)[..i])| <= |text|
    ensures Scan(text)[i..] == Scan(text[|Unscan(Scan(text)[..i])|..])
    decreases |text|
  {
    if i == 0 {
      assert Scan(text)[..0] == [] && Scan(text)[0..] == Scan(text) && text[0..] == text;
    } else {
      var p := Head(text);
      var n := |Raw(p)|;
      var rest := text[n..];
      var ps := Scan(text);
      assert ps == [p] + Scan(rest);
      ScanSuffix(rest, i - 1);
      var before := Scan(rest)[..i - 1];
      var s' := |Unscan(before)|;
      assert |Unscan(ps[..i])| == n + s' by {
        TakeOfCons(p, Scan(rest), i);
        UnscanAppend([p], before);
      }
      assert text[n + s'..] == rest[s'..] by {
        SuffixOfSuffix(text, n, s');
      }
      assert ps[i..] == Scan(rest)[i - 1..];
    }
  }

  /** Piece i is what the search emits standing at offset s, the length
      of the text the pieces before it spell: a kept character where no
      match starts, else the leftmost greedy match (see Head). */
  lemma PieceIsHeadAtItsOffset(text: string, i: nat)
    requires i < |Scan(text)|
    ensures |Unscan(Scan(text)[..i])| < |text|
    ensures Scan(text)[i] == Head(text[|Unscan(Scan(text)[..i])|..])
  {
    ScanSuffix(text, i);
    var x := text[|Unscan(Scan(text)[..i])|..];
    assert Scan(x) != [];
    assert Scan(text)[i] == Scan(x)[0];
  }

  lemma TakeOfCons(p: Piece, qs: seq<Piece>, i: nat)
    requires 0 < i <= |qs| + 1
    ensures ([p] + qs)[..i] == [p] + qs[..i - 1]
    ensures Unscan([p]) == Raw(p)
  {
  }

  lemma SuffixOfSuffix(text: string, n: nat, m: nat)
    requires n + m <= |text|
    ensures text[n..][m..] == text[n + m..]
  {
  }

  /** `test` finds nothing: the text comes back unchanged. */
  lemma {:induction false} ExpandWithoutMatchIsIdentity(fs: FileSystem, dir: string, text: string)
    requires !HasMatch(text)
    ensures Expand(fs, dir, text) == Ok(text)
    decreases |text|
  {
    if text != [] {
      assert MatchPrefix(text).None?;
      var ps := Scan(text);
      assert Head(text) == Char(text[0]);
      assert ps[1..] == Scan(text[1..]);
      ExpandWithoutMatchIsIdentity(fs, dir, text[1..]);
      assert text == [text[0]] + text[1..];
    }
  }

  /** The `test` guard of `_replaceAigisSyntax` never changes its result. */
  lemma GuardIsRedundant(fs: FileSystem, dir: string, md: string)
    ensures ReplaceAigisSyntax(fs, dir, md) == Expand(fs, dir, md)
  {
    if !HasMatch(md) {
      ExpandWithoutMatchIsIdentity(fs, dir, md);
    }
  }

  /** A directive whose file the file system does not hold. */
  predicate Missing(fs: FileSystem, dir: string, p: Piece)
  {
    p.Directive? && fs.resolve(dir, p.path) !in fs.files
  }

  /** Substitution fails exactly when some directive's file is missing, and
      then with the first such file: no partial text is produced. */
  lemma {:induction false} SubstituteFailsOnFirstMissing(fs: FileSystem, dir: string, ps: seq<Piece>)
    ensures Substitute(fs, dir, ps).Err? <==> exists i | 0 <= i < |ps| :: Missing(fs, dir, ps[i])
    ensures Substitute(fs, dir, ps).Err? ==>
      exists i | 0 <= i < |ps| :: Missing(fs, dir, ps[i]) &&
        Substitute(fs, dir, ps).error == FileNotFound(fs.resolve(dir, ps[i].path)) &&
        (forall j | 0 <= j < i :: !Missing(fs, dir, ps[j]))
    decreases |ps|
  {
    if ps != [] {
      SubstituteFailsOnFirstMissing(fs, dir, ps[1..]);
      if !Missing(fs, dir, ps[0]) && Substitute(fs, dir, ps[1..]).Err? {
        var i :| 0 <= i < |ps[1..]| && Missing(fs, dir, ps[1..][i]) &&
          Substitute(fs, dir, ps[1..]).error == FileNotFound(fs.resolve(dir, ps[1..][i].path)) &&
          (forall j | 0 <= j < i :: !Missing(fs, dir, ps[1..][j]));
        assert Missing(fs, dir, ps[i + 1]);
      }
      if exists i | 0 <= i < |ps| :: Missing(fs, dir, ps[i]) {
        var i :| 0 <= i < |ps| && Missing(fs, dir, ps[i]);
        if i > 0 {
          assert Missing(fs, dir, ps[1..][i - 1]);
        }
      }
    }
  }

  /** `_replaceAigisSyntax` fails exactly when a directive names a file that
      does not exist, and reports the first such file. */
  lemma ExpandFailsIffFileMissing(fs: FileSystem, dir: string, text: string)
    ensures ReplaceAigisSyntax(fs, dir, text).Err? <==>
      exists i | 0 <= i < |Scan(text)| :: Missing(fs, dir, Scan(text)[i])
    ensures ReplaceAigisSyntax(fs, dir, text).Err? ==>
      exists i | 0 <= i < |Scan(text)| :: Missing(fs, dir, Scan(text)[i]) &&
        ReplaceAigisSyntax(fs, dir, text).error == FileNotFound(fs.resolve(dir, Scan(text)[i].path)) &&
        (forall j | 0 <= j < i :: !Missing(fs, dir, Scan(text)[j]))
  {
    GuardIsRedundant(fs, dir, text);
    assert Expand(fs, dir, text) == Substitute(fs, dir, Scan(text));
    SubstituteFailsOnFirstMissing(fs, dir, Scan(text));
  }
}

/** Lines are expanded independently, and a lone directive expands to its block. */
module AigisSyntaxLines {
  import opened Common
  import opened AigisSyntax
  import opened AigisSyntaxProperties

  lemma {:induction false} SubstituteAppend(fs: FileSystem, dir: string, ps: seq<Piece>, qs: seq<Piece>)
    ensures Substitute(fs, dir, ps + qs) == Join(Substitute(fs, dir, ps), Substitute(fs, dir, qs))
    decreases |ps|
  {
    if ps == [] {
      assert ps + qs == qs;
      assert Substitute(fs, dir, qs).Ok? ==> [] + Substitute(fs, dir, qs).value == Substitute(fs, dir, qs).value;
    } else {
      assert (ps + qs)[0] == ps[0];
      assert (ps + qs)[1..] == ps[1..] + qs;
      SubstituteAppend(fs, dir, ps[1..], qs);
      JoinAssociative(Replacement(fs, dir, ps[0]), Substitute(fs, dir, ps[1..]), Substitute(fs, dir, qs));
    }
  }

  lemma JoinAssociative(a: Result<string>, b: Result<string>, c: Result<string>)
    ensures Join(a, Join(b, c)) == Join(Join(a, b), c)
  {
    if a.Ok? && b.Ok? && c.Ok? {
      assert a.value + (b.value + c.value) == (a.value + b.value) + c.value;
    }
  }

  /** Every character of a match, from `!` to `)`, lies on one line. */
  lemma MatchStaysOnLine(text: string, t: int, e: int, k: int)
    requires IsMatch(text, t, e) && 0 <= k <= e
    ensures !IsLineTerminator(text[k])
  {
    if t + 2 <= k < e {
      assert IsPathChar(text[k]);
    }
  }

  /** Appending text after a match does not change it. */
  lemma MatchInPrefix(x: string, b: string, t: int, e: int)
    requires e < |x|
    ensures IsMatch(x + b, t, e) <==> IsMatch(x, t, e)
  {
    assert forall i | 0 <= i < |x| :: (x + b)[i] == x[i];
  }

  /** What follows a line terminator cannot change the match at the start. */
  lemma HeadIgnoresLaterLines(x: string, b: string)
    requires x != [] && IsLineTerminator(x[|x| - 1])
    ensures Head(x + b) == Head(x)
  {
    forall t, e
      ensures IsMatch(x + b, t, e) <==> IsMatch(x, t, e)
    {
      if e < |x| - 1 {
        MatchInPrefix(x, b, t, e);
      } else {
        assert IsLineTerminator((x + b)[|x| - 1]);
        if IsMatch(x + b, t, e) {
          MatchStaysOnLine(x + b, t, e, |x| - 1);
        }
      }
    }
    MatchPrefixDeterminedByMatches(x + b, x);
    match MatchPrefix(x)
    case Some(m) =>
      assert (x + b)[3..m.titleEnd] == x[3..m.titleEnd];
      assert (x + b)[m.titleEnd + 2..m.pathEnd] == x[m.titleEnd + 2..m.pathEnd];
    case None =>
  }

  /** The scan starts with the head piece and goes on after it. */
  lemma ScanCons(text: string)
    requires text != []
    ensures Scan(text) == [Head(text)] + Scan(text[|Raw(Head(text))|..])
  {
  }

  /** A global search never carries a match across a line terminator. */
  lemma {:induction false} ScanSplitsAtLineEnd(a: string, b: string)
    requires a == [] || IsLineTerminator(a[|a| - 1])
    ensures Scan(a + b) == Scan(a) + Scan(b)
    decreases |a|
  {
    if a == [] {
      assert a + b == b;
    } else {
      var p := Head(a);
      var rest := a[|Raw(p)|..];
      assert Scan(a + b) == [p] + Scan(rest + b) by {
        HeadIgnoresLaterLines(a, b);
        ScanCons(a + b);
        DropAppend(a, b, |Raw(p)|);
      }
      assert Scan(a) == [p] + Scan(rest) by {
        ScanCons(a);
      }
      assert Scan(rest + b) == Scan(rest) + Scan(b) by {
        if rest == [] {
          assert rest + b == b;
        } else {
          assert rest[|rest| - 1] == a[|a| - 1];
          ScanSplitsAtLineEnd(rest, b);
        }
      }
      ConsAssociative(p, Scan(rest), Scan(b));
    }
  }

  lemma ConsAssociative(p: Piece, xs: seq<Piece>, ys: seq<Piece>)
    ensures [p] + (xs + ys) == ([p] + xs) + ys
  {
  }

  lemma DropAppend(a: string, b: string, n: nat)
    requires n <= |a|
    ensures (a + b)[n..] == a[n..] + b
  {
  }

  /** `_replaceAigisSyntax` treats the text up to a line terminator and
      the text after it independently. */
  lemma ExpandSplitsAtLineEnd(fs: FileSystem, dir: string, a: string, b: string)
    requires a == [] || IsLineTerminator(a[|a| - 1])
    ensures Expand(fs, dir, a + b) == Join(Expand(fs, dir, a), Expand(fs, dir, b))
  {
    ScanSplitsAtLineEnd(a, b);
    SubstituteAppend(fs, dir, Scan(a), Scan(b));
  }

  /** The pieces of a text kept character by character. */
  function Chars(s: string): (ps: seq<Piece>)
    ensures |ps| == |s|
  {
    if s == [] then [] else [Char(s[0])] + Chars(s[1..])
  }

  lemma {:induction false} SubstituteChars(fs: FileSystem, dir: string, s: string)
    ensures Substitute(fs, dir, Chars(s)) == Ok(s)
    decreases |s|
  {
    if s != [] {
      var ps := Chars(s);
      assert ps[0] == Char(s[0]) && ps[1..] == Chars(s[1..]);
      SubstituteChars(fs, dir, s[1..]);
      assert Replacement(fs, dir, ps[0]) == Ok([s[0]]);
      assert s == [s[0]] + s[1..];
    }
  }

  /** No match starts inside text without a `!`. */
  lemma {:induction false} ScanBangFree(pre: string, x: string)
    requires forall i | 0 <= i < |pre| :: pre[i] != '!'
    ensures Scan(pre + x) == Chars(pre) + Scan(x)
    decreases |pre|
  {
    if pre == [] {
      assert pre + x == x;
    } else {
      var y := pre + x;
      assert y[0] == pre[0];
      HeadWithoutBang(y);
      ScanCons(y);
      DropAppend(pre, x, 1);
      ScanBangFree(pre[1..], x);
      ConsAssociative(Char(pre[0]), Chars(pre[1..]), Scan(x));
    }
  }

  /** Text that does not start with `!` starts with a kept character. */
  lemma HeadWithoutBang(text: string)
    requires text != [] && text[0] != '!'
    ensures Head(text) == Char(text[0]) && |Raw(Head(text))| == 1
  {
  }

  /** A well-formed directive followed by the end of its line is matched
      exactly, with its own title and path. */
  lemma DirectiveMatchesAlone(d: Piece, post: string)
    requires d.Directive? && WellFormed(d)
    requires post == [] || IsLineTerminator(post[0])
    ensures Head(Raw(d) + post) == d
    ensures (Raw(d) + post)[|Raw(d)|..] == post
  {
    var x := Raw(d) + post;
    var t0 := 3 + |d.title|;
    var e0 := t0 + 2 + |d.path|;
    DirectiveLayout(d, post);
    forall t, e | IsMatch(x, t, e)
      ensures t < t0 || (t == t0 && e <= e0)
    {
    }
    GreatestMatchIsReported(x, t0, e0);
  }

  /** Where the parts of a directive sit in its raw text. */
  lemma DirectiveLayout(d: Piece, post: string)
    requires d.Directive? && WellFormed(d)
    requires post == [] || IsLineTerminator(post[0])
    ensures var x, t0 := Raw(d) + post, 3 + |d.title|;
      var e0 := t0 + 2 + |d.path|;
      |Raw(d)| == e0 + 1 && x[|Raw(d)|..] == post &&
      x[3..t0] == d.title && x[t0 + 2..e0] == d.path &&
      IsMatch(x, t0, e0) &&
      (forall i | t0 < i <= e0 :: x[i] != ']') &&
      (e0 + 1 < |x| ==> IsLineTerminator(x[e0 + 1]))
  {
    var r := Raw(d);
    var x := r + post;
    var t0 := 3 + |d.title|;
    var e0 := t0 + 2 + |d.path|;
    RawDirectiveAt(d);
    assert forall i | 0 <= i < |r| :: x[i] == r[i];
    assert x[|r|..] == post;
    assert x[3..t0] == d.title;
    assert x[t0 + 2..e0] == d.path;
  }

  lemma RawDirectiveAt(d: Piece)
    requires d.Directive?
    ensures var r, t0 := Raw(d), 3 + |d.title|;
      var e0 := t0 + 2 + |d.path|;
      |r| == e0 + 1 && r[0] == '!' && r[1] == '!' && r[2] == '[' &&
      (forall i | 3 <= i < t0 :: r[i] == d.title[i - 3]) &&
      r[t0] == ']' && r[t0 + 1] == '(' &&
      (forall i | t0 + 2 <= i < e0 :: r[i] == d.path[i - t0 - 2]) &&
      r[e0] == ')'
  {
  }

  /** Text without `!`, then one directive closing its line: the text is
      kept, the directive becomes the block of its file, the rest is
      expanded on its own; a missing file fails the whole call. */
  lemma ExpandOneDirective(fs: FileSystem, dir: string, pre: string, title: string, path: string, post: string)
    requires forall i | 0 <= i < |pre| :: pre[i] != '!'
    requires WellFormed(Directive(title, path))
    requires post == [] || IsLineTerminator(post[0])
    ensures var key := fs.resolve(dir, path);
      Expand(fs, dir, pre + "!![" + title + "](" + path + ")" + post) ==
        if key in fs.files then Join(Ok(pre + Block(fs.files[key])), Expand(fs, dir, post))
        else Err(FileNotFound(key))
  {
    var d := Directive(title, path);
    var text := pre + "!![" + title + "](" + path + ")" + post;
    ScanOneDirective(pre, d, post);
    var here := Replacement(fs, dir, d);
    assert Expand(fs, dir, text) == Join(Ok(pre), Join(here, Expand(fs, dir, post))) by {
      SubstituteAppend(fs, dir, Chars(pre), [d] + Scan(post));
      SubstituteChars(fs, dir, pre);
      SubstituteAppend(fs, dir, [d], Scan(post));
      assert Substitute(fs, dir, [d]) == here by {
        assert here.Ok? ==> here.value + [] == here.value;
      }
    }
    JoinAssociative(Ok(pre), here, Expand(fs, dir, post));
  }

  lemma ScanOneDirective(pre: string, d: Piece, post: string)
    requires forall i | 0 <= i < |pre| :: pre[i] != '!'
    requires d.Directive? && WellFormed(d)
    requires post == [] || IsLineTerminator(post[0])
    ensures Scan(pre + "!![" + d.title + "](" + d.path + ")" + post) == Chars(pre) + ([d] + Scan(post))
  {
    var x := Raw(d) + post;
    SpellsRawDirective(pre, d, post);
    ScanBangFree(pre, x);
    assert Scan(x) == [d] + Scan(post) by {
      DirectiveMatchesAlone(d, post);
      ScanCons(x);
    }
  }

  lemma SpellsRawDirective(pre: string, d: Piece, post: string)
    requires d.Directive?
    ensures pre + "!![" + d.title + "](" + d.path + ")" + post == pre + (Raw(d) + post)
  {
  }
}

/** Concrete inputs that show how the directive pattern behaves. */
module AigisSyntaxExamples {
  import opened Common
  import opened AigisSyntax
  import opened AigisSyntaxProperties
  import opened AigisSyntaxLines

  /** A directive after ordinary text embeds the referenced file verbatim. */
  lemma EmbedsReferencedFile(fs: FileSystem, dir: string, md: string)
    requires md == "Sample: !![Demo](demo.html)"
    requires fs.resolve(dir, "demo.html") in fs.files
    requires fs.files[fs.resolve(dir, "demo.html")] == "<b>hi</b>"
    ensures Expand(fs, dir, md) == Ok("Sample: \n\n```html\n<b>hi</b>\n```")
  {
    SampleIsOneDirective();
    SampleDirectiveWellFormed();
    SampleBlockText();
    ExpandOneDirective(fs, dir, "Sample: ", "Demo", "demo.html", []);
    ExpandEmpty(fs, dir);
  }

  lemma SampleIsOneDirective()
    ensures "Sample: !![Demo](demo.html)" == "Sample: " + "!![" + "Demo" + "](" + "demo.html" + ")" + []
  {
  }

  lemma SampleDirectiveWellFormed()
    ensures WellFormed(Directive("Demo", "demo.html"))
  {
  }

  lemma SampleBlockText()
    ensures "Sample: " + Block("<b>hi</b>") + [] == "Sample: \n\n```html\n<b>hi</b>\n```"
  {
  }

  lemma ExpandEmpty(fs: FileSystem, dir: string)
    ensures Expand(fs, dir, []) == Ok([])
  {
  }

  /** Two directives on one line are one match: the greedy title takes the
      longest line prefix that still lets the rest match, here up to the
      second `](`, so only the second file is read and the first need not
      even exist. */
  lemma TwoDirectivesOnOneLineCollapse(fs: FileSystem, dir: string, md: string)
    requires md == "!![a](x)!![b](y)"
    requires fs.resolve(dir, "y") in fs.files
    ensures Expand(fs, dir, md) == Ok(Block(fs.files[fs.resolve(dir, "y")]))
  {
    var title, path := "a](x)!![b", "y";
    CollapsedIsOneDirective();
    ExpandOneDirective(fs, dir, [], title, path, []);
    ExpandEmpty(fs, dir);
    var b := Block(fs.files[fs.resolve(dir, "y")]);
    assert [] + b + [] == b;
  }

  lemma CollapsedIsOneDirective()
    ensures "!![a](x)!![b](y)" == [] + "!![" + "a](x)!![b" + "](" + "y" + ")" + []
    ensures WellFormed(Directive("a](x)!![b", "y"))
  {
  }

  /** The path class admits `)`, so the path runs to the last usable `)`. */
  lemma PathRunsToLastParen(fs: FileSystem, dir: string, md: string)
    requires md == "!![t](b)c)"
    requires fs.resolve(dir, "b)c") in fs.files
    ensures Expand(fs, dir, md) == Ok(Block(fs.files[fs.resolve(dir, "b)c")]))
  {
    var title, path := "t", "b)c";
    assert WellFormed(Directive(title, path));
    assert md == [] + "!![" + title + "](" + path + ")" + [];
    ExpandOneDirective(fs, dir, [], title, path, []);
    ExpandEmpty(fs, dir);
    var b := Block(fs.files[fs.resolve(dir, "b)c")]);
    assert [] + b + [] == b;
  }

  /** A space in the path is outside the character class: no match. */
  lemma SpaceInPathIsNoDirective(fs: FileSystem, dir: string, md: string)
    requires md == "!![a](b c)"
    ensures Expand(fs, dir, md) == Ok(md)
  {
    forall s, t, e | 0 <= s <= |md|
      ensures !IsMatch(md[s..], t, e)
    {
      SpacedPathNeverMatches(md, s, t, e);
    }
    ExpandWithoutMatchIsIdentity(fs, dir, md);
  }

  lemma SpacedPathNeverMatches(md: string, s: int, t: int, e: int)
    requires md == "!![a](b c)" && 0 <= s <= |md|
    ensures !IsMatch(md[s..], t, e)
  {
    assert forall i | 0 < i < |md| - 2 :: md[i] != '!' || md[i + 1] != '!';
    assert forall i | 0 <= i < |md| && md[i] == ']' :: i == 4;
    assert !IsPathChar(md[7]) && md[6] != ')';
  }
}

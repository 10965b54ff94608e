/**
 * The download cache: a plain-text file with one record per line,
 *
 *     <release_id>| "<title>" (<year>) by <artist>
 *
 * read line by line with the pattern
 *
 *     (\w+)\|\s*"((?:[^"\\]*(?:\\.)?)*)" \((\w+)\) by (.*)
 *
 * and written back with `format!` and `join("\n")`. The pattern is modelled
 * by a matcher written out by hand. From a given start position every piece
 * of the pattern has exactly one way to match (each repetition is followed
 * by a character it cannot consume), so the matcher tries the start
 * positions from left to right and takes the first that matches, which is
 * the leftmost-first match the regex engine reports. `\w` and `\s` are the
 * ASCII classes; `.` is any character but `\n`.
 */
module Cache {
  import opened Results
  import opened Strings

  type I32 = x: int | I32_MIN <= x <= I32_MAX

  /** One line of the cache file. */
  datatype DownloadCacheRelease = DownloadCacheRelease(
    releaseId: string,
    title: string,
    year: I32,
    artist: string)

  datatype CacheParsingError =
    | RegexCaptureFail(line: string)
    | RegexGroupFail(group: int)
    | ParseIntError(kind: IntErrorKind)

  // ---------------------------------------------------------------------
  // Character classes and the pieces of the pattern
  // ---------------------------------------------------------------------

  /** `\w` without Unicode: `[0-9A-Za-z_]`. */
  predicate IsWordChar(c: char) {
    '0' <= c <= '9' || 'A' <= c <= 'Z' || 'a' <= c <= 'z' || c == '_'
  }

  /** `\s` without Unicode: `[\t\n\v\f\r ]`. */
  predicate IsSpace(c: char) {
    c == '\t' || c == '\n' || c == '\U{000B}' || c == '\U{000C}' || c == '\r' || c == ' '
  }

  /** A non-empty run of `\w`. */
  predicate IsWord(s: string) {
    |s| > 0 && forall i :: 0 <= i < |s| ==> IsWordChar(s[i])
  }

  predicate NoNewline(s: string) {
    forall i :: 0 <= i < |s| ==> s[i] != '\n'
  }

  /**
   * The language of the title group `(?:[^"\\]*(?:\\.)?)*`: characters other
   * than `"` and `\`, and pairs of a `\` with any character but `\n`.
   */
  predicate Escaped(t: string)
    decreases |t|
  {
    if t == [] then true
    else if t[0] == '"' then false
    else if t[0] == '\\' then |t| >= 2 && t[1] != '\n' && Escaped(t[2..])
    else Escaped(t[1..])
  }

  /** `\w+` (or `\s*`) starting at `i` runs to the first character outside the class. */
  function WordRunEnd(s: string, i: nat): (j: nat)
    requires i <= |s|
    ensures i <= j <= |s|
    ensures forall k :: i <= k < j ==> IsWordChar(s[k])
    ensures j < |s| ==> !IsWordChar(s[j])
    decreases |s| - i
  {
    if i == |s| || !IsWordChar(s[i]) then i else WordRunEnd(s, i + 1)
  }

  function SpaceRunEnd(s: string, i: nat): (j: nat)
    requires i <= |s|
    ensures i <= j <= |s|
    ensures forall k :: i <= k < j ==> IsSpace(s[k])
    ensures j < |s| ==> !IsSpace(s[j])
    decreases |s| - i
  {
    if i == |s| || !IsSpace(s[i]) then i else SpaceRunEnd(s, i + 1)
  }

  /**
   * The title group followed by its closing `"`: the group's tokens are
   * forced, so it can only stop at the first `"` that is not escaped.
   * `None` when the text runs out, or a `\` has nothing (or only `\n`) after it.
   */
  function TitleEnd(s: string, i: nat): (r: Option<nat>)
    requires i <= |s|
    ensures r.Some? ==> i <= r.value < |s| && s[r.value] == '"'
    decreases |s| - i
  {
    if i == |s| then None
    else if s[i] == '"' then Some(i)
    else if s[i] == '\\' then
      if i + 1 < |s| && s[i + 1] != '\n' then TitleEnd(s, i + 2) else None
    else TitleEnd(s, i + 1)
  }

  /** The title group's text, up to its closing `"`, is in the group's language. */
  lemma {:induction false} TitleEndEscaped(s: string, i: nat)
    requires i <= |s| && TitleEnd(s, i).Some?
    ensures Escaped(s[i..TitleEnd(s, i).value])
    decreases |s| - i
  {
    var t := TitleEnd(s, i).value;
    if s[i] == '\\' {
      TitleEndEscaped(s, i + 2);
      assert s[i..t][2..] == s[i + 2..t];
    } else if s[i] != '"' {
      TitleEndEscaped(s, i + 1);
      assert s[i..t][1..] == s[i + 1..t];
    }
  }

  /** The texts of the four capture groups. */
  datatype Captures = Captures(id: string, title: string, year: string, artist: string)

  /** Every group lies in its character class. */
  predicate WellCaptured(c: Captures) {
    IsWord(c.id) && Escaped(c.title) && IsWord(c.year) && NoNewline(c.artist)
  }

  /** The whole pattern, anchored at `start`. */
  function MatchAt(s: string, start: nat): Option<Captures>
    requires start <= |s|
  {
    var p := WordRunEnd(s, start);
    if p == start || p == |s| || s[p] != '|' then None
    else
      match TitleSpan(s, p)
      case None => None
      case Some((q, t)) => MatchYearArtist(s, start, p, q, t)
  }

  /**
   * After `(\w+)\|` at `p`: blanks, then the quoted title; the positions of
   * the opening and the closing quote.
   */
  function TitleSpan(s: string, p: nat): (r: Option<(nat, nat)>)
    requires p < |s|
    ensures r.Some? ==> p < r.value.0 < r.value.1 < |s|
  {
    var q := SpaceRunEnd(s, p + 1);
    if q == |s| || s[q] != '"' then None
    else
      match TitleEnd(s, q + 1)
      case None => None
      case Some(t) => Some((q, t))
  }

  /** The fixed texts between the fields of a line. */
  const ID_CLOSE := "| \""
  const TITLE_CLOSE := "\" ("
  const BY_MARKER := ") by "
  const PIPE := "|"
  const QUOTE := "\""

  /** After the closing quote: ` (`, the year word, `) by ` and the rest of the line. */
  function MatchYearArtist(s: string, start: nat, p: nat, q: nat, t: nat): Option<Captures>
    requires start < p < q < t < |s|
  {
    if t + 3 > |s| || s[t + 1] != ' ' || s[t + 2] != '(' then None
    else
      var y := WordRunEnd(s, t + 3);
      if y == t + 3 || y + 5 > |s| || s[y..y + 5] != BY_MARKER then None
      else
        var a := IndexFrom(s, '\n', y + 5);
        Some(Captures(s[start..p], s[q + 1..t], s[t + 3..y], s[y + 5..a]))
  }

  /** Leftmost-first search: the first start position, from `from` on, where the pattern matches. */
  function LeftmostMatch(s: string, from: nat): (r: Option<Captures>)
    requires from <= |s|
    decreases |s| - from
  {
    if from == |s| then None
    else
      match MatchAt(s, from)
      case Some(c) => Some(c)
      case None => LeftmostMatch(s, from + 1)
  }

  // ---------------------------------------------------------------------
  // read_download_cache_line and serialize_download_cache_release
  // ---------------------------------------------------------------------

  /**
   * `read_download_cache_line`. The year group is parsed as an `i32`; the
   * other groups are copied without unescaping. All four groups take part
   * in every match, so `RegexGroupFail` is never produced.
   */
  function ReadLine(line: string): (r: Result<DownloadCacheRelease, CacheParsingError>)
    ensures r.Err? ==> !r.error.RegexGroupFail?
    ensures r.Err? && r.error.RegexCaptureFail? ==> r.error.line == line
    ensures r.Ok? ==> LineRoundTrips(r.value)
  {
    match LeftmostMatch(line, 0)
    case None => Err(RegexCaptureFail(line))
    case Some(c) =>
      LeftmostMatchShape(line, 0);
      match ParseI32(c.year)
      case Err(k) => Err(ParseIntError(k))
      case Ok(y) =>
        ParseI32OfWord(c.year);
        Ok(DownloadCacheRelease(c.id, c.title, y, c.artist))
  }

  /** `serialize_download_cache_release`: `format!("{}| \"{}\" ({}) by {}", ...)`. */
  function SerializeRelease(r: DownloadCacheRelease): string {
    r.releaseId + ID_CLOSE + r.title + TITLE_CLOSE + IntToString(r.year) + BY_MARKER + r.artist
  }

  /**
   * The releases whose line reads back as the same release: a word for the
   * id, a title in the title group's language, a year without a sign and an
   * artist without a line feed.
   */
  predicate LineRoundTrips(r: DownloadCacheRelease) {
    && IsWord(r.releaseId)
    && Escaped(r.title)
    && r.year >= 0
    && NoNewline(r.artist)
  }

  /** Whatever the pattern captures lies in the groups' character classes. */
  lemma MatchAtShape(s: string, start: nat)
    requires start <= |s| && MatchAt(s, start).Some?
    ensures WellCaptured(MatchAt(s, start).value)
  {
    var p := WordRunEnd(s, start);
    var (q, t) := TitleSpan(s, p).value;
    assert MatchAt(s, start) == MatchYearArtist(s, start, p, q, t);
    assert q == SpaceRunEnd(s, p + 1) && TitleEnd(s, q + 1) == Some(t);
    TitleEndEscaped(s, q + 1);
    var y := WordRunEnd(s, t + 3);
    var a := IndexFrom(s, '\n', y + 5);
    assert MatchYearArtist(s, start, p, q, t) == Some(Captures(s[start..p], s[q + 1..t], s[t + 3..y], s[y + 5..a]));
    WordSlice(s, start, p);
    WordSlice(s, t + 3, y);
    NoNewlineSlice(s, y + 5, a);
  }

  lemma WordSlice(s: string, i: nat, j: nat)
    requires i < j <= |s| && forall k :: i <= k < j ==> IsWordChar(s[k])
    ensures IsWord(s[i..j])
  {
    assert forall k :: 0 <= k < j - i ==> s[i..j][k] == s[i + k];
  }

  lemma NoNewlineSlice(s: string, i: nat, j: nat)
    requires i <= j <= |s| && forall k :: i <= k < j ==> s[k] != '\n'
    ensures NoNewline(s[i..j])
  {
    assert forall k :: 0 <= k < j - i ==> s[i..j][k] == s[i + k];
  }

  lemma {:induction false} LeftmostMatchShape(s: string, from: nat)
    requires from <= |s| && LeftmostMatch(s, from).Some?
    ensures WellCaptured(LeftmostMatch(s, from).value)
    decreases |s| - from
  {
    if MatchAt(s, from).Some? {
      MatchAtShape(s, from);
    } else {
      LeftmostMatchShape(s, from + 1);
    }
  }

  /**
   * The leftmost match is the match at the first start position where the
   * pattern matches: it matches at `k`, and at no position before `k`.
   */
  lemma {:induction false} LeftmostMatchIsMatch(s: string, from: nat)
    requires from <= |s|
    requires LeftmostMatch(s, from).Some?
    ensures exists k :: from <= k < |s| && MatchAt(s, k) == LeftmostMatch(s, from) &&
                        forall j :: from <= j < k ==> MatchAt(s, j).None?
    decreases |s| - from
  {
    var c := LeftmostMatch(s, from);
    if MatchAt(s, from).None? {
      LeftmostMatchIsMatch(s, from + 1);
      var k :| from + 1 <= k < |s| && MatchAt(s, k) == c &&
               forall j :: from + 1 <= j < k ==> MatchAt(s, j).None?;
      FirstMatchWitness(s, from, k, c);
    } else {
      FirstMatchWitness(s, from, from, c);
    }
  }

  /** A match at `k` with none before it, from `from` on, witnesses the first match. */
  lemma FirstMatchWitness(s: string, from: nat, k: nat, c: Option<Captures>)
    requires from <= k < |s| && MatchAt(s, k) == c
    requires forall j :: from <= j < k ==> MatchAt(s, j).None?
    ensures exists k' :: from <= k' < |s| && MatchAt(s, k') == c &&
                         forall j :: from <= j < k' ==> MatchAt(s, j).None?
  {
  }

  /** The pattern fails on a text exactly when it matches at no start position. */
  lemma {:induction false} LeftmostMatchNone(s: string, from: nat)
    requires from <= |s|
    ensures LeftmostMatch(s, from).None? <==> forall k :: from <= k < |s| ==> MatchAt(s, k).None?
    decreases |s| - from
  {
    if from < |s| {
      LeftmostMatchNone(s, from + 1);
    }
  }

  /** A word parses as an `i32` only when it is all digits, and then it is not negative. */
  lemma ParseI32OfWord(w: string)
    requires IsWord(w)
    ensures ParseI32(w).Ok? ==> 0 <= ParseI32(w).value <= I32_MAX
  {
    AccumulateUpBounded(w, 0, I32_MAX);
  }

  // ---------------------------------------------------------------------
  // The pattern accepts what it should
  // ---------------------------------------------------------------------

  lemma WordRunEndAt(s: string, i: nat, j: nat)
    requires i <= j < |s| && !IsWordChar(s[j])
    requires forall k :: i <= k < j ==> IsWordChar(s[k])
    ensures WordRunEnd(s, i) == j
  {
  }

  lemma SpaceRunEndAt(s: string, i: nat, j: nat)
    requires i <= j < |s| && !IsSpace(s[j])
    requires forall k :: i <= k < j ==> IsSpace(s[k])
    ensures SpaceRunEnd(s, i) == j
  {
  }

  lemma IndexFromAt(s: string, i: nat, j: nat)
    requires i <= j <= |s| && (j < |s| ==> s[j] == '\n')
    requires forall k :: i <= k < j ==> s[k] != '\n'
    ensures IndexFrom(s, '\n', i) == j
  {
  }

  /** The title group ends at the `"` right after any text in its language. */
  lemma {:induction false} TitleEndAt(s: string, i: nat, t: nat)
    requires i <= t < |s| && s[t] == '"' && Escaped(s[i..t])
    ensures TitleEnd(s, i) == Some(t)
    decreases t - i
  {
    if i < t {
      var u := s[i..t];
      if s[i] == '\\' {
        assert u[2..] == s[i + 2..t];
        TitleEndAt(s, i + 2, t);
      } else {
        assert u[1..] == s[i + 1..t];
        TitleEndAt(s, i + 1, t);
      }
    }
  }

  /**
   * Anchored at `start`, the pattern matches a line laid out as
   * `id|<spaces>"title" (year) by artist` followed by nothing or a line feed,
   * and captures exactly those four parts.
   */
  lemma MatchAtLayout(s: string, start: nat, p: nat, q: nat, t: nat, y: nat, a: nat)
    requires start < p < q < t && t + 3 < y && y + 5 <= a <= |s|
    requires forall k :: start <= k < p ==> IsWordChar(s[k])
    requires s[p] == '|'
    requires forall k :: p + 1 <= k < q ==> IsSpace(s[k])
    requires s[q] == '"' && Escaped(s[q + 1..t]) && s[t..t + 3] == TITLE_CLOSE
    requires forall k :: t + 3 <= k < y ==> IsWordChar(s[k])
    requires s[y..y + 5] == BY_MARKER
    requires forall k :: y + 5 <= k < a ==> s[k] != '\n'
    requires a < |s| ==> s[a] == '\n'
    ensures MatchAt(s, start) == Some(Captures(s[start..p], s[q + 1..t], s[t + 3..y], s[y + 5..a]))
  {
    WordRunEndAt(s, start, p);
    SpaceRunEndAt(s, p + 1, q);
    TitleEndAt(s, q + 1, t);
    assert TitleSpan(s, p) == Some((q, t));
    MatchYearArtistAt(s, start, p, q, t, y, a);
  }

  lemma MatchYearArtistAt(s: string, start: nat, p: nat, q: nat, t: nat, y: nat, a: nat)
    requires start < p < q < t && t + 3 < y && y + 5 <= a <= |s|
    requires s[t..t + 3] == TITLE_CLOSE
    requires forall k :: t + 3 <= k < y ==> IsWordChar(s[k])
    requires s[y..y + 5] == BY_MARKER
    requires forall k :: y + 5 <= k < a ==> s[k] != '\n'
    requires a < |s| ==> s[a] == '\n'
    ensures MatchYearArtist(s, start, p, q, t) == Some(Captures(s[start..p], s[q + 1..t], s[t + 3..y], s[y + 5..a]))
  {
    assert s[y] == s[y..y + 5][0] == ')';
    assert s[t + 1] == s[t..t + 3][1] == ' ' && s[t + 2] == s[t..t + 3][2] == '(';
    WordRunEndAt(s, t + 3, y);
    IndexFromAt(s, y + 5, a);
  }

  /** The text a match covers: the id, `|`, blanks, the quoted title, ` (`, the year, `) by ` and the artist. */
  function Layout(c: Captures, blanks: string): string {
    c.id + PIPE + blanks + QUOTE + c.title + TITLE_CLOSE + c.year + BY_MARKER + c.artist
  }

  /**
   * The converse of `MatchAtLayout`: a match at `start` covers a stretch of
   * the text laid out from its four captures and some blanks, which runs to
   * the end of the text or to a line feed.
   */
  lemma MatchAtIsLayout(s: string, start: nat)
    requires start <= |s| && MatchAt(s, start).Some?
    ensures var c := MatchAt(s, start).value;
      exists blanks: string, e: nat ::
        && (forall i :: 0 <= i < |blanks| ==> IsSpace(blanks[i]))
        && start <= e <= |s| && s[start..e] == Layout(c, blanks)
        && (e < |s| ==> s[e] == '\n')
  {
    var p, q, t, y, a := MatchAtPositions(s, start);
    var c := MatchAt(s, start).value;
    var blanks := s[p + 1..q];
    PiecesOfMarkers(s, p, q, t);
    LayoutOfSlices(s, start, p, q, t, y, a, c, blanks);
    SpacesOfSlice(s, p + 1, q);
    LaidOut(s, start, c, blanks, a);
  }

  /** A text laid out from `c` and `blanks` up to the end of a line. */
  lemma LaidOut(s: string, start: nat, c: Captures, blanks: string, e: nat)
    requires forall i :: 0 <= i < |blanks| ==> IsSpace(blanks[i])
    requires start <= e <= |s| && s[start..e] == Layout(c, blanks) && (e < |s| ==> s[e] == '\n')
    ensures exists blanks': string, e': nat ::
      && (forall i :: 0 <= i < |blanks'| ==> IsSpace(blanks'[i]))
      && start <= e' <= |s| && s[start..e'] == Layout(c, blanks')
      && (e' < |s| ==> s[e'] == '\n')
  {
  }

  /** The separators of a match, as slices of the text. */
  lemma PiecesOfMarkers(s: string, p: nat, q: nat, t: nat)
    requires p < q < t && t + 3 <= |s|
    requires s[p] == '|' && s[q] == '"' && s[t] == '"' && s[t + 1] == ' ' && s[t + 2] == '('
    ensures s[p..p + 1] == PIPE && s[q..q + 1] == QUOTE && s[t..t + 3] == TITLE_CLOSE
  {
  }

  /** Where the pieces of a match lie. */
  lemma MatchAtPositions(s: string, start: nat) returns (p: nat, q: nat, t: nat, y: nat, a: nat)
    requires start <= |s| && MatchAt(s, start).Some?
    ensures start < p < q < t && t + 3 < y && y + 5 <= a <= |s|
    ensures MatchAt(s, start) == Some(Captures(s[start..p], s[q + 1..t], s[t + 3..y], s[y + 5..a]))
    ensures s[p] == '|' && s[q] == '"' && s[t] == '"' && s[t + 1] == ' ' && s[t + 2] == '('
    ensures s[y..y + 5] == BY_MARKER
    ensures forall k :: p + 1 <= k < q ==> IsSpace(s[k])
    ensures a < |s| ==> s[a] == '\n'
  {
    p := WordRunEnd(s, start);
    var span := TitleSpan(s, p).value;
    q, t := span.0, span.1;
    assert MatchAt(s, start) == MatchYearArtist(s, start, p, q, t);
    assert q == SpaceRunEnd(s, p + 1);
    y, a := MatchYearArtistPositions(s, start, p, q, t);
  }

  /** Where the year and the artist of a match lie. */
  lemma MatchYearArtistPositions(s: string, start: nat, p: nat, q: nat, t: nat) returns (y: nat, a: nat)
    requires start < p < q < t < |s| && MatchYearArtist(s, start, p, q, t).Some?
    ensures t + 3 < y && y + 5 <= a <= |s|
    ensures MatchYearArtist(s, start, p, q, t) == Some(Captures(s[start..p], s[q + 1..t], s[t + 3..y], s[y + 5..a]))
    ensures s[t + 1] == ' ' && s[t + 2] == '(' && s[y..y + 5] == BY_MARKER
    ensures a < |s| ==> s[a] == '\n'
  {
    y := WordRunEnd(s, t + 3);
    a := IndexFrom(s, '\n', y + 5);
  }

  lemma LayoutOfSlices(s: string, start: nat, p: nat, q: nat, t: nat, y: nat, a: nat, c: Captures, blanks: string)
    requires start <= p && p + 1 <= q && q + 1 <= t && t + 3 <= y && y + 5 <= a <= |s|
    requires s[start..p] == c.id && s[p..p + 1] == PIPE && s[p + 1..q] == blanks && s[q..q + 1] == QUOTE
    requires s[q + 1..t] == c.title && s[t..t + 3] == TITLE_CLOSE && s[t + 3..y] == c.year
    requires s[y..y + 5] == BY_MARKER && s[y + 5..a] == c.artist
    ensures s[start..a] == Layout(c, blanks)
  {
    assert s[start..a] == c.id + PIPE + blanks + QUOTE + c.title + TITLE_CLOSE + c.year + BY_MARKER + c.artist by {
      SliceJoin(s, start, p, p + 1, q, q + 1, t, t + 3, y, y + 5, a);
    }
  }

  lemma SpacesOfSlice(s: string, i: nat, j: nat)
    requires i <= j <= |s| && forall k :: i <= k < j ==> IsSpace(s[k])
    ensures forall k :: 0 <= k < j - i ==> IsSpace(s[i..j][k])
  {
  }

  /** A stretch of text is the concatenation of its consecutive pieces. */
  lemma SliceJoin(s: string, i0: nat, i1: nat, i2: nat, i3: nat, i4: nat, i5: nat, i6: nat, i7: nat, i8: nat, i9: nat)
    requires i0 <= i1 <= i2 <= i3 <= i4 <= i5 <= i6 <= i7 <= i8 <= i9 <= |s|
    ensures s[i0..i9] == s[i0..i1] + s[i1..i2] + s[i2..i3] + s[i3..i4] + s[i4..i5] + s[i5..i6] + s[i6..i7] + s[i7..i8] + s[i8..i9]
  {
    assert s[i0..i2] == s[i0..i1] + s[i1..i2];
    assert s[i0..i3] == s[i0..i2] + s[i2..i3];
    assert s[i0..i4] == s[i0..i3] + s[i3..i4];
    assert s[i0..i5] == s[i0..i4] + s[i4..i5];
    assert s[i0..i6] == s[i0..i5] + s[i5..i6];
    assert s[i0..i7] == s[i0..i6] + s[i6..i7];
    assert s[i0..i8] == s[i0..i7] + s[i7..i8];
    assert s[i0..i9] == s[i0..i8] + s[i8..i9];
  }

  /** Every release that satisfies `LineRoundTrips` is read back from its own line. */
  lemma ReadLineOfSerialize(r: DownloadCacheRelease)
    requires LineRoundTrips(r)
    ensures ReadLine(SerializeRelease(r)) == Ok(r)
  {
    var digits := NatToString(r.year);
    SerializeWithDigits(r, digits);
    ParseI32OfNatToString(r.year);
    ReadLineOfFields(r.releaseId, r.title, digits, r.artist, r.year);
  }

  /** A line spelled from four fields in the written layout is read back as those fields. */
  lemma ReadLineOfFields(id: string, title: string, digits: string, artist: string, year: I32)
    requires IsWord(id) && Escaped(title) && IsWord(digits) && NoNewline(artist)
    requires ParseI32(digits) == Ok(year as int)
    ensures ReadLine(id + ID_CLOSE + title + TITLE_CLOSE + digits + BY_MARKER + artist) ==
            Ok(DownloadCacheRelease(id, title, year, artist))
  {
    var s := id + ID_CLOSE + title + TITLE_CLOSE + digits + BY_MARKER + artist;
    var p := |id|;
    var t := p + 3 + |title|;
    var y := t + 3 + |digits|;
    LineSlices(s, id, title, digits, artist);
    assert s[0..p] == id && s[p + 3..t] == title && s[t + 3..y] == digits && s[y + 5..|s|] == artist;
    ReadLineOfLayout(s, p, t, y, year);
  }

  /** A line laid out as `id| "title" (year) by artist`, with a year that parses, is read field by field. */
  lemma ReadLineOfLayout(s: string, p: nat, t: nat, y: nat, year: I32)
    requires p + 3 <= t && t + 3 <= y && y + 5 <= |s|
    requires IsWord(s[0..p]) && s[p] == '|' && s[p + 1] == ' ' && s[p + 2] == '"'
    requires Escaped(s[p + 3..t]) && s[t..t + 3] == TITLE_CLOSE
    requires IsWord(s[t + 3..y]) && s[y..y + 5] == BY_MARKER && NoNewline(s[y + 5..|s|])
    requires ParseI32(s[t + 3..y]) == Ok(year as int)
    ensures ReadLine(s) == Ok(DownloadCacheRelease(s[0..p], s[p + 3..t], year, s[y + 5..|s|]))
  {
    WordCharsOfSlice(s, 0, p);
    WordCharsOfSlice(s, t + 3, y);
    NoNewlineCharsOfSlice(s, y + 5, |s|);
    MatchAtLayout(s, 0, p, p + 2, t, y, |s|);
    var c := Captures(s[0..p], s[p + 3..t], s[t + 3..y], s[y + 5..|s|]);
    LeftmostMatchAtStart(s, c);
    ReadLineOfMatch(s, c, year);
  }

  /** Where the fields and the fixed texts of a line lie. */
  lemma LineSlices(s: string, id: string, title: string, digits: string, artist: string)
    requires s == id + ID_CLOSE + title + TITLE_CLOSE + digits + BY_MARKER + artist
    ensures var p, t := |id|, |id| + 3 + |title|;
            var y := t + 3 + |digits|;
            && |s| == y + 5 + |artist|
            && s[0..p] == id
            && s[p] == '|' && s[p + 1] == ' ' && s[p + 2] == '"'
            && s[p + 3..t] == title
            && s[t..t + 3] == TITLE_CLOSE
            && s[t + 3..y] == digits
            && s[y..y + 5] == BY_MARKER
            && s[y + 5..|s|] == artist
  {
    var p := |id|;
    assert s[p..p + 3] == ID_CLOSE;
  }

  /** A match at the first position is the leftmost one. */
  lemma LeftmostMatchAtStart(s: string, c: Captures)
    requires MatchAt(s, 0) == Some(c) && |s| > 0
    ensures LeftmostMatch(s, 0) == Some(c)
  {
  }

  /** A line the pattern matches, with a year that parses, is read as its captures. */
  lemma ReadLineOfMatch(line: string, c: Captures, year: I32)
    requires LeftmostMatch(line, 0) == Some(c) && ParseI32(c.year) == Ok(year as int)
    ensures ReadLine(line) == Ok(DownloadCacheRelease(c.id, c.title, year, c.artist))
  {
  }

  lemma WordCharsOfSlice(s: string, i: nat, j: nat)
    requires i <= j <= |s| && IsWord(s[i..j])
    ensures forall k :: i <= k < j ==> IsWordChar(s[k])
  {
    forall k | i <= k < j ensures IsWordChar(s[k]) {
      assert s[k] == s[i..j][k - i];
    }
  }

  lemma NoNewlineCharsOfSlice(s: string, i: nat, j: nat)
    requires i <= j <= |s| && NoNewline(s[i..j])
    ensures forall k :: i <= k < j ==> s[k] != '\n'
  {
    forall k | i <= k < j ensures s[k] != '\n' {
      assert s[k] == s[i..j][k - i];
    }
  }

  /** Reading a line and writing it back yields a line that reads as the same release. */
  lemma ReadLineCanonical(line: string)
    requires ReadLine(line).Ok?
    ensures ReadLine(SerializeRelease(ReadLine(line).value)) == ReadLine(line)
  {
    ReadLineOfSerialize(ReadLine(line).value);
  }

  // ---------------------------------------------------------------------
  // The pattern rejects what it should
  // ---------------------------------------------------------------------

  /** Every match holds a `|` and, later, the text `) by `. */
  lemma MatchAtNeedsMarkers(s: string, start: nat)
    requires start <= |s| && MatchAt(s, start).Some?
    ensures exists k :: start <= k < |s| && s[k] == '|'
    ensures exists k: nat :: start <= k && OccursAt(s, BY_MARKER, k)
  {
    var p := WordRunEnd(s, start);
    var (q, t) := TitleSpan(s, p).value;
    var y := WordRunEnd(s, t + 3);
    assert MatchYearArtist(s, start, p, q, t).Some?;
    assert OccursAt(s, BY_MARKER, y);
  }

  /** A line without `|`, or without `) by `, fails with `RegexCaptureFail` carrying the line. */
  lemma ReadLineRejects(line: string)
    requires (forall k :: 0 <= k < |line| ==> line[k] != '|') || (forall k: nat :: !OccursAt(line, BY_MARKER, k))
    ensures ReadLine(line) == Err(RegexCaptureFail(line))
  {
    if LeftmostMatch(line, 0).Some? {
      LeftmostMatchIsMatch(line, 0);
      var k :| 0 <= k <= |line| && MatchAt(line, k) == LeftmostMatch(line, 0);
      MatchAtNeedsMarkers(line, k);
    }
  }

  /** When the pattern matches but the year group is not an `i32`, the parse error is reported. */
  lemma ReadLineYearError(line: string)
    requires LeftmostMatch(line, 0).Some?
    ensures ReadLine(line).Err? <==> ParseI32(LeftmostMatch(line, 0).value.year).Err?
    ensures ParseI32(LeftmostMatch(line, 0).value.year).Err? ==>
      ReadLine(line) == Err(ParseIntError(ParseI32(LeftmostMatch(line, 0).value.year).error))
  {
  }

  // ---------------------------------------------------------------------
  // read_download_cache and serialize_download_cache
  // ---------------------------------------------------------------------

  /**
   * Collecting the lines into a `Result<Vec<_>, _>`: the first failing line's
   * error, or every line's release in order.
   */
  function ReadLines(lines: seq<string>): (r: Result<seq<DownloadCacheRelease>, CacheParsingError>)
    ensures r.Ok? <==> forall i :: 0 <= i < |lines| ==> ReadLine(lines[i]).Ok?
    ensures r.Ok? ==> |r.value| == |lines| && forall i :: 0 <= i < |lines| ==> ReadLine(lines[i]) == Ok(r.value[i])
    ensures r.Err? ==> exists k :: 0 <= k < |lines| && ReadLine(lines[k]) == Err(r.error) &&
                        forall i :: 0 <= i < k ==> ReadLine(lines[i]).Ok?
  {
    var rs := seq(|lines|, i requires 0 <= i < |lines| => ReadLine(lines[i]));
    assert forall i :: 0 <= i < |lines| ==> rs[i] == ReadLine(lines[i]);
    Collect(rs)
  }

  /**
   * Collecting `(release_id, release)` pairs into a `HashMap`: the keys are
   * exactly the ids, every key maps to a release with that id, and a
   * repeated id keeps the release of its last line.
   */
  function ToMap(rs: seq<DownloadCacheRelease>): (m: map<string, DownloadCacheRelease>)
    ensures m.Keys == set i | 0 <= i < |rs| :: rs[i].releaseId
    ensures forall k :: k in m ==> m[k].releaseId == k
    ensures forall i :: 0 <= i < |rs| && (forall j :: i < j < |rs| ==> rs[j].releaseId != rs[i].releaseId) ==>
              m[rs[i].releaseId] == rs[i]
  {
    if rs == [] then map[]
    else
      var m0 := ToMap(rs[..|rs| - 1]);
      ToMapStep(rs, m0);
      m0[rs[|rs| - 1].releaseId := rs[|rs| - 1]]
  }

  /** One more line on top of the map of the lines before it. */
  lemma ToMapStep(rs: seq<DownloadCacheRelease>, m0: map<string, DownloadCacheRelease>)
    requires |rs| > 0
    requires var init := rs[..|rs| - 1];
             && m0.Keys == (set i | 0 <= i < |init| :: init[i].releaseId)
             && (forall k :: k in m0 ==> m0[k].releaseId == k)
             && (forall i :: 0 <= i < |init| && (forall j :: i < j < |init| ==> init[j].releaseId != init[i].releaseId) ==>
                   m0[init[i].releaseId] == init[i])
    ensures var m := m0[rs[|rs| - 1].releaseId := rs[|rs| - 1]];
            && m.Keys == (set i | 0 <= i < |rs| :: rs[i].releaseId)
            && (forall k :: k in m ==> m[k].releaseId == k)
            && (forall i :: 0 <= i < |rs| && (forall j :: i < j < |rs| ==> rs[j].releaseId != rs[i].releaseId) ==>
                  m[rs[i].releaseId] == rs[i])
  {
    var init := rs[..|rs| - 1];
    var last := rs[|rs| - 1];
    var m := m0[last.releaseId := last];
    assert forall i :: 0 <= i < |init| ==> init[i] == rs[i];
    var ids := set i | 0 <= i < |rs| :: rs[i].releaseId;
    assert ids == m0.Keys + {last.releaseId} by {
      forall k | k in ids ensures k in m0.Keys + {last.releaseId} {
        var i :| 0 <= i < |rs| && rs[i].releaseId == k;
        if i < |rs| - 1 {
          assert init[i].releaseId == k;
        }
      }
    }
    forall i | 0 <= i < |rs| && (forall j :: i < j < |rs| ==> rs[j].releaseId != rs[i].releaseId)
      ensures m[rs[i].releaseId] == rs[i]
    {
      if i < |rs| - 1 {
        assert rs[i].releaseId != last.releaseId;
        assert init[i] == rs[i];
      }
    }
  }

  /** `read_download_cache`: all lines parse, or the first failure is the result; no partial map. */
  function ReadCache(data: string): Result<map<string, DownloadCacheRelease>, CacheParsingError> {
    match ReadLines(Lines(data))
    case Err(e) => Err(e)
    case Ok(rs) => Ok(ToMap(rs))
  }

  /** `order` visits every key of `cache` exactly once, as a `HashMap` iteration does. */
  predicate IsIterationOrder(cache: map<string, DownloadCacheRelease>, order: seq<string>) {
    && (forall k :: k in cache ==> k in order)
    && (forall k :: k in order ==> k in cache)
    && (forall i, j :: 0 <= i < j < |order| ==> order[i] != order[j])
  }

  function SerializedLines(cache: map<string, DownloadCacheRelease>, order: seq<string>): seq<string>
    requires IsIterationOrder(cache, order)
  {
    seq(|order|, i requires 0 <= i < |order| => SerializeRelease(cache[order[i]]))
  }

  /**
   * `serialize_download_cache`: the entries' lines in the map's iteration
   * order, joined by `\n`, with no final line feed.
   */
  function SerializeCache(cache: map<string, DownloadCacheRelease>, order: seq<string>): string
    requires IsIterationOrder(cache, order)
  {
    Join(SerializedLines(cache, order), "\n")
  }

  /**
   * What a release must satisfy to survive a whole-file round trip: its line
   * round-trips, the title holds no line feed, and the line does not end in
   * `\r` (which `lines()` would strip before a line feed).
   */
  predicate Storable(r: DownloadCacheRelease) {
    && LineRoundTrips(r)
    && NoNewline(r.title)
    && (|r.artist| == 0 || r.artist[|r.artist| - 1] != '\r')
  }

  /** A storable release serializes to a line that `lines()` returns unchanged. */
  lemma SerializedLineIsPlain(r: DownloadCacheRelease)
    requires Storable(r)
    ensures IsPlainLine(SerializeRelease(r))
  {
    var digits := NatToString(r.year);
    var s := SerializeRelease(r);
    var head := r.releaseId + ID_CLOSE + r.title + TITLE_CLOSE + digits + BY_MARKER;
    assert s == head + r.artist;
    forall k | 0 <= k < |s| ensures s[k] != '\n' {
      if k >= |head| {
        assert s[k] == r.artist[k - |head|];
      } else {
        var a := r.releaseId + ID_CLOSE + r.title;
        assert head == a + TITLE_CLOSE + digits + BY_MARKER;
        if k >= |a| + 3 && k < |a| + 3 + |digits| {
          assert s[k] == digits[k - |a| - 3];
        } else if k < |r.releaseId| {
          assert s[k] == r.releaseId[k];
        } else if |r.releaseId| + 3 <= k < |a| {
          assert s[k] == r.title[k - |r.releaseId| - 3];
        }
      }
    }
  }

  /** An empty cache is written as the empty string, which reads back as the empty map. */
  lemma EmptyCacheRoundTrip()
    ensures SerializeCache(map[], []) == ""
    ensures ReadCache("") == Ok(map[])
  {
  }

  /** The releases of `cache` in the iteration order. */
  function Entries(cache: map<string, DownloadCacheRelease>, order: seq<string>): seq<DownloadCacheRelease>
    requires IsIterationOrder(cache, order)
  {
    seq(|order|, i requires 0 <= i < |order| => cache[order[i]])
  }

  lemma ReadSerializedLines(cache: map<string, DownloadCacheRelease>, order: seq<string>)
    requires IsIterationOrder(cache, order)
    requires forall k :: k in cache ==> Storable(cache[k])
    ensures ReadLines(SerializedLines(cache, order)) == Ok(Entries(cache, order))
  {
    var lines, rs := SerializedLines(cache, order), Entries(cache, order);
    forall i | 0 <= i < |lines| ensures ReadLine(lines[i]) == Ok(rs[i]) {
      ReadLineOfSerialize(cache[order[i]]);
    }
    var read := ReadLines(lines);
    assert read.Ok?;
    assert forall i :: 0 <= i < |rs| ==> read.value[i] == rs[i];
    assert read.value == rs;
  }

  lemma ToMapOfEntries(cache: map<string, DownloadCacheRelease>, order: seq<string>)
    requires IsIterationOrder(cache, order)
    requires forall k :: k in cache ==> cache[k].releaseId == k
    ensures ToMap(Entries(cache, order)) == cache
  {
    var rs := Entries(cache, order);
    var m := ToMap(rs);
    EntriesIds(cache, order);
    forall k | k in cache ensures m[k] == cache[k] {
      var i :| 0 <= i < |order| && order[i] == k;
      EntryIsLast(cache, order, i);
    }
    MapsAgree(m, cache);
  }

  /** The ids of the entries are the keys of the map. */
  lemma EntriesIds(cache: map<string, DownloadCacheRelease>, order: seq<string>)
    requires IsIterationOrder(cache, order)
    requires forall k :: k in cache ==> cache[k].releaseId == k
    ensures var rs := Entries(cache, order); (set i | 0 <= i < |rs| :: rs[i].releaseId) == cache.Keys
  {
    var rs := Entries(cache, order);
    forall k | k in cache ensures exists i :: 0 <= i < |rs| && rs[i].releaseId == k {
      var i :| 0 <= i < |order| && order[i] == k;
      assert rs[i].releaseId == k;
    }
  }

  /** No later entry repeats the id of entry `i`. */
  lemma EntryIsLast(cache: map<string, DownloadCacheRelease>, order: seq<string>, i: nat)
    requires IsIterationOrder(cache, order) && i < |order|
    requires forall k :: k in cache ==> cache[k].releaseId == k
    ensures var rs := Entries(cache, order);
            && rs[i].releaseId == order[i]
            && forall j :: i < j < |rs| ==> rs[j].releaseId != rs[i].releaseId
  {
    var rs := Entries(cache, order);
    forall j | i < j < |rs| ensures rs[j].releaseId != rs[i].releaseId {
      assert rs[j].releaseId == order[j];
    }
  }

  lemma MapsAgree<K, V>(m: map<K, V>, n: map<K, V>)
    requires m.Keys == n.Keys && forall k :: k in m ==> m[k] == n[k]
    ensures m == n
  {
  }

  /**
   * Whole-file round trip: a cache whose entries are keyed by their own ids
   * and are storable reads back as itself, whatever the iteration order.
   */
  lemma CacheRoundTrip(cache: map<string, DownloadCacheRelease>, order: seq<string>)
    requires IsIterationOrder(cache, order)
    requires forall k :: k in cache ==> cache[k].releaseId == k && Storable(cache[k])
    ensures ReadCache(SerializeCache(cache, order)) == Ok(cache)
  {
    var lines := SerializedLines(cache, order);
    forall i | 0 <= i < |lines| ensures IsPlainLine(lines[i]) {
      SerializedLineIsPlain(cache[order[i]]);
    }
    LinesOfJoin(lines);
    ReadSerializedLines(cache, order);
    ToMapOfEntries(cache, order);
  }

  // ---------------------------------------------------------------------
  // The cases exercised by the module's own tests
  // ---------------------------------------------------------------------

  /** A text without `\n` is one line; when that line is rejected, so is the whole cache. */
  lemma ReadCacheOneLine(data: string)
    requires |data| > 0 && NoNewline(data)
    ensures ReadCache(data) == match ReadLine(data)
                               case Err(e) => Err(e)
                               case Ok(r) => Ok(map[r.releaseId := r])
  {
    assert IndexFrom(data, '\n', 0) == |data|;
    assert Lines(data) == [data];
    if ReadLine(data).Ok? {
      var r := ReadLine(data).value;
      var rl := ReadLines([data]);
      assert ReadLine([data][0]).Ok?;
      assert rl.Ok? && |rl.value| == 1 && ReadLine(data) == Ok(rl.value[0]);
      assert rl.value == [r];
      assert ToMap([r]) == ToMap([])[r.releaseId := r];
    }
  }

  /** Text free of `"` and `\` is a title. */
  lemma {:induction false} PlainTextEscaped(t: string)
    requires forall i :: 0 <= i < |t| ==> t[i] != '"' && t[i] != '\\'
    ensures Escaped(t)
  {
    if t != [] {
      PlainTextEscaped(t[1..]);
    }
  }

  /** Titles concatenate. */
  lemma {:induction false} EscapedAppend(a: string, b: string)
    requires Escaped(a) && Escaped(b)
    ensures Escaped(a + b)
    decreases |a|
  {
    if a != [] {
      assert (a + b)[0] == a[0];
      if a[0] == '\\' {
        assert (a + b)[1] == a[1];
        assert (a + b)[2..] == a[2..] + b;
        EscapedAppend(a[2..], b);
      } else {
        assert (a + b)[1..] == a[1..] + b;
        EscapedAppend(a[1..], b);
      }
    } else {
      assert a + b == b;
    }
  }

  /** The decimal form of a four-digit year. */
  lemma YearText(y: nat)
    requires 1000 <= y < 10000
    ensures NatToString(y) == [DigitChar(y / 1000), DigitChar(y / 100 % 10), DigitChar(y / 10 % 10), DigitChar(y % 10)]
  {
    assert y / 10 / 10 / 10 == y / 1000 && y / 10 / 10 % 10 == y / 100 % 10;
    assert NatToString(y / 1000) == [DigitChar(y / 1000)];
    assert NatToString(y / 100) == [DigitChar(y / 1000), DigitChar(y / 100 % 10)];
    assert NatToString(y / 10) == [DigitChar(y / 1000), DigitChar(y / 100 % 10), DigitChar(y / 10 % 10)];
  }

  /** The line layout with the year already written out. */
  lemma SerializeWithDigits(r: DownloadCacheRelease, digits: string)
    requires r.year >= 0 && NatToString(r.year) == digits
    ensures SerializeRelease(r) == r.releaseId + ID_CLOSE + r.title + TITLE_CLOSE + digits + BY_MARKER + r.artist
  {
  }

  const GALERIE := DownloadCacheRelease("p199396767", "Galerie", 2022, "Anomalie")
  /** The line of the module's tests, `p199396767| "Galerie" (2022) by Anomalie`, spelled by its fields. */
  const GALERIE_LINE := "p199396767" + ID_CLOSE + "Galerie" + TITLE_CLOSE + "2022" + BY_MARKER + "Anomalie"

  /** `GALERIE` is written as the line of the module's tests. */
  lemma GalerieWritten()
    ensures SerializeRelease(GALERIE) == GALERIE_LINE
  {
    YearText(2022);
    SerializeWithDigits(GALERIE, "2022");
  }

  /** The line of the module's tests is read back as the release it names. */
  lemma GalerieRead()
    ensures ReadLine(GALERIE_LINE) == Ok(GALERIE)
  {
    GalerieWritten();
    GalerieStorable();
    ReadLineOfWritten(GALERIE, GALERIE_LINE);
  }

  lemma GalerieStorable()
    ensures LineRoundTrips(GALERIE)
  {
    PlainTextEscaped(GALERIE.title);
    assert IsWord(GALERIE.releaseId) && NoNewline(GALERIE.artist);
  }

  /** A line known to be the serialization of a release that round-trips reads back as it. */
  lemma ReadLineOfWritten(r: DownloadCacheRelease, line: string)
    requires LineRoundTrips(r) && SerializeRelease(r) == line
    ensures ReadLine(line) == Ok(r)
  {
    ReadLineOfSerialize(r);
  }

  /** A backslash and a quote: a quote escaped inside the title. */
  const ESCAPED_QUOTE := "\\\""
  const VIOLET_TITLE := "Toxic " + ESCAPED_QUOTE + "Violet" + ESCAPED_QUOTE + VIOLET_TAIL
  const VIOLET_TAIL := " Cubes [From BSWC2021 Grand Finals]"
  const VIOLET_ARTIST := "かめりあ(Camellia)"
  const VIOLET := DownloadCacheRelease("p204514015", VIOLET_TITLE, 2021, VIOLET_ARTIST)
  /** The line of the module's tests with escaped quotes, spelled by its fields. */
  const VIOLET_LINE := "p204514015" + ID_CLOSE + VIOLET_TITLE + TITLE_CLOSE + "2021" + BY_MARKER + VIOLET_ARTIST

  /** Five titles in a row make a title. */
  lemma EscapedJoin(a: string, b: string, c: string, d: string, e: string)
    requires Escaped(a) && Escaped(b) && Escaped(c) && Escaped(d) && Escaped(e)
    ensures Escaped(a + b + c + d + e)
  {
    EscapedAppend(a, b);
    EscapedAppend(a + b, c);
    EscapedAppend(a + b + c, d);
    EscapedAppend(a + b + c + d, e);
  }

  lemma EscapedQuoteEscaped()
    ensures Escaped(ESCAPED_QUOTE)
  {
    assert ESCAPED_QUOTE[2..] == [];
  }

  lemma VioletTailEscaped()
    ensures Escaped(VIOLET_TAIL)
  {
    PlainTextEscaped(VIOLET_TAIL);
  }

  /** The title with escaped quotes is a title of the line format. */
  lemma VioletTitleEscaped()
    ensures Escaped(VIOLET_TITLE)
  {
    PlainTextEscaped("Toxic ");
    PlainTextEscaped("Violet");
    EscapedQuoteEscaped();
    VioletTailEscaped();
    EscapedJoin("Toxic ", ESCAPED_QUOTE, "Violet", ESCAPED_QUOTE, VIOLET_TAIL);
  }

  /** `VIOLET` is written as the line of the module's tests. */
  lemma VioletWritten()
    ensures SerializeRelease(VIOLET) == VIOLET_LINE
  {
    YearText(2021);
    SerializeWithDigits(VIOLET, "2021");
  }

  /** `VIOLET` has the shape every written line has. */
  lemma VioletStorable()
    ensures LineRoundTrips(VIOLET)
  {
    assert IsWord(VIOLET.releaseId);
    assert NoNewline(VIOLET_ARTIST);
    VioletTitleEscaped();
  }

  /** Escaped quotes stay escaped: the title is read with its backslashes. */
  lemma VioletRead()
    ensures ReadLine(VIOLET_LINE) == Ok(VIOLET)
  {
    VioletWritten();
    VioletStorable();
    ReadLineOfWritten(VIOLET, VIOLET_LINE);
  }

  /** The smallest release of the module's tests: one-letter-and-digit id, empty title and artist, year 0. */
  const MINIMAL := DownloadCacheRelease("p0", "", 0, "")

  lemma MinimalRoundTrip()
    ensures ReadLine(SerializeRelease(MINIMAL)) == Ok(MINIMAL)
  {
    assert IsWord(MINIMAL.releaseId);
    ReadLineOfSerialize(MINIMAL);
  }

  const NO_SEPARATOR := "Hi this is a test"
  const NO_ARTIST := "pewpew1234| \"ABCD\" (1234) by"
  const NO_BY := "pewpew1234| \"ABCD\" (hello)"

  /** `NO_SEPARATOR` has no `|`: the cache holding it is rejected, naming the line. */
  lemma NoSeparatorRejected()
    ensures ReadCache(NO_SEPARATOR) == Err(RegexCaptureFail(NO_SEPARATOR))
  {
    assert NoNewline(NO_SEPARATOR);
    ReadLineRejects(NO_SEPARATOR);
    ReadCacheOneLine(NO_SEPARATOR);
  }

  /** No `)` of a text stands five characters or more before its end: `) by ` cannot occur. */
  lemma NoByMarker(s: string)
    requires forall k :: 0 <= k < |s| - 4 ==> s[k] != ')'
    ensures forall k: nat :: !OccursAt(s, BY_MARKER, k)
  {
    forall k: nat ensures !OccursAt(s, BY_MARKER, k) {
      if k + 5 <= |s| {
        assert s[k..k + 5][0] == s[k];
      }
    }
  }

  /** `NO_ARTIST` ends right after `by`, lacking the space before the artist, and is rejected. */
  lemma NoArtistRejected()
    ensures ReadCache(NO_ARTIST) == Err(RegexCaptureFail(NO_ARTIST))
  {
    assert NoNewline(NO_ARTIST);
    NoByMarker(NO_ARTIST);
    ReadLineRejects(NO_ARTIST);
    ReadCacheOneLine(NO_ARTIST);
  }

  /** `NO_BY` stops after the year, without ` by ` and an artist, and is rejected. */
  lemma NoByRejected()
    ensures ReadCache(NO_BY) == Err(RegexCaptureFail(NO_BY))
  {
    assert NoNewline(NO_BY);
    NoByMarker(NO_BY);
    ReadLineRejects(NO_BY);
    ReadCacheOneLine(NO_BY);
  }
}

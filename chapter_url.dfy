/**
 Which chapter a page belongs to (js/main.js:75-79 and 111-112): the first
 group of `/chapters\/(\d+)/` matched against the URL path, unless the
 completion button carries a non-empty `data-chapter` attribute.
 */
module ChapterUrl {
  import opened Common

  const Marker := "chapters/"

  /** `chapters/` starts at `i` and a digit follows it. */
  predicate MatchAt(path: string, i: nat) {
    i + |Marker| < |path| && path[i..i + |Marker|] == Marker && IsDigit(path[i + |Marker|])
  }

  /** `\d+` at the start of `s`: the longest run of leading digits. */
  function DigitRun(s: string): (d: string)
    ensures |d| <= |s| && d == s[..|d|] && AllDigits(d)
    ensures |d| < |s| ==> !IsDigit(s[|d|])
  {
    if s != [] && IsDigit(s[0]) then
      var d' := DigitRun(s[1..]);
      assert [s[0]] + d' == s[..1 + |d'|];
      [s[0]] + d'
    else []
  }

  /** The regular expression's scan: the leftmost match position from `i` on. */
  function FirstMatchFrom(path: string, i: nat): (r: Option<nat>)
    ensures r.Some? ==> i <= r.value && MatchAt(path, r.value)
    ensures r.Some? ==> forall j: nat :: i <= j < r.value ==> !MatchAt(path, j)
    ensures r.None? ==> forall j: nat :: i <= j ==> !MatchAt(path, j)
    decreases |path| - i
  {
    if i + |Marker| >= |path| then None
    else if MatchAt(path, i) then Some(i)
    else FirstMatchFrom(path, i + 1)
  }

  /** `getChapterIdFromUrl`: `match[1]` of the leftmost match, or null. */
  function ChapterIdFromUrl(path: string): (r: Option<string>)
    ensures r.None? <==> forall i: nat :: !MatchAt(path, i)
    ensures r.Some? ==> exists i: nat :: && MatchAt(path, i)
                                        && (forall j: nat :: j < i ==> !MatchAt(path, j))
                                        && r.value == DigitRun(path[i + |Marker|..])
    ensures r.Some? ==> |r.value| > 0 && AllDigits(r.value)
  {
    match FirstMatchFrom(path, 0)
    case None => None
    case Some(i) => Some(DigitRun(path[i + |Marker|..]))
  }

  /** The digits returned run as far as they go: the character after them in
      the path, if any, is not a digit. */
  lemma ChapterIdIsMaximal(path: string, i: nat)
    requires MatchAt(path, i) && forall j: nat :: j < i ==> !MatchAt(path, j)
    ensures ChapterIdFromUrl(path) == Some(DigitRun(path[i + |Marker|..]))
    ensures var d := ChapterIdFromUrl(path).value;
      i + |Marker| + |d| < |path| ==> !IsDigit(path[i + |Marker| + |d|])
  {
    var r := FirstMatchFrom(path, 0);
    assert r.Some?;
    var d := DigitRun(path[i + |Marker|..]);
    if i + |Marker| + |d| < |path| {
      assert path[i + |Marker|..][|d|] == path[i + |Marker| + |d|];
    }
  }

  /** `btn.dataset.chapter || getChapterIdFromUrl()`: a missing or empty
      attribute falls through to the URL. `None` leaves the button inert. */
  function ResolveChapterId(dataChapter: Option<string>, path: string): (r: Option<string>)
    ensures r.Some? ==> r.value != ""
    ensures dataChapter.Some? && dataChapter.value != "" ==> r == dataChapter
    ensures dataChapter.None? || dataChapter.value == "" ==> r == ChapterIdFromUrl(path)
  {
    if dataChapter.Some? && dataChapter.value != "" then dataChapter else ChapterIdFromUrl(path)
  }

  /** A chapter page URL yields its number. */
  lemma ChapterIdExample()
    ensures ChapterIdFromUrl("/chapters/12/") == Some("12")
  {
    var path := "/chapters/12/";
    assert path[1..10] == Marker;
    assert MatchAt(path, 1);
    assert !MatchAt(path, 0);
    ChapterIdIsMaximal(path, 1);
    assert path[10..] == "12/";
    assert DigitRun("/") == [];
    assert "2/"[1..] == "/";
    assert DigitRun("2/") == "2";
    assert "12/"[1..] == "2/";
    assert DigitRun("12/") == "12";
  }
}

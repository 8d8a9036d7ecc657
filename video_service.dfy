/**
 * Video analysis helpers: YouTube video-id extraction (two regular
 * expressions tried in order with `re.search`), transcript assembly, the
 * 15000-character cut of the transcript that reaches the analysis prompt,
 * and the JSON text taken from the analysis reply.
 *
 * The first pattern is `(?:youtube\.com\/watch\?v=|youtu\.be\/)([^&\n?#]+)`,
 * the second `youtube\.com\/embed\/([^&\n?#]+)`. Both are a literal marker
 * (one of two alternatives for the first) followed by a greedy group of at
 * least one character outside {&, newline, ?, #}; the search below is that
 * regex engine behaviour written out.
 */
module VideoService {
  import opened Text
  import opened Wrappers
  import GeminiService
  import RequestsModel

  const WatchMarker: string := "youtube.com/watch?v="
  const ShortMarker: string := "youtu.be/"
  const EmbedMarker: string := "youtube.com/embed/"

  /** The alternatives of the first pattern, in the order the regex tries them. */
  const ShareMarkers: seq<string> := [WatchMarker, ShortMarker]
  /** The second pattern, tried only when the first matches nowhere. */
  const EmbedMarkers: seq<string> := [EmbedMarker]

  const MaxTranscriptChars: nat := 15000

  // ---------------------------------------------------------------------------
  // extract_video_id
  // ---------------------------------------------------------------------------

  /** The character class `[^&\n?#]`. */
  predicate IsIdChar(c: char) {
    c != '&' && c != '\n' && c != '?' && c != '#'
  }

  /** How many characters the greedy `[^&\n?#]+` consumes from index `k` on. */
  function RunLength(s: string, k: nat): (n: nat)
    requires k <= |s|
    ensures k + n <= |s|
    ensures forall i :: k <= i < k + n ==> IsIdChar(s[i])
    ensures k + n == |s| || !IsIdChar(s[k + n])
    decreases |s| - k
  {
    if k < |s| && IsIdChar(s[k]) then 1 + RunLength(s, k + 1) else 0
  }

  /** `marker` occurs at `p` and at least one id character follows it. */
  predicate MarkerMatchesAt(url: string, marker: string, p: nat) {
    OccursAt(url, marker, p) && p + |marker| < |url| && IsIdChar(url[p + |marker|])
  }

  /** The first alternative of `markers` that matches at `p`, if any. */
  function AlternativeAt(url: string, markers: seq<string>, p: nat): (r: Option<string>)
    ensures r.Some? ==> r.value in markers && MarkerMatchesAt(url, r.value, p)
    decreases |markers|
  {
    if markers == [] then None
    else if MarkerMatchesAt(url, markers[0], p) then Some(markers[0])
    else AlternativeAt(url, markers[1..], p)
  }

  /** The scan of `re.search`: the leftmost start position, from `from` on, where the pattern matches. */
  function LeftmostMatch(url: string, markers: seq<string>, from: nat): (r: Option<nat>)
    ensures r.Some? ==> from <= r.value < |url| && AlternativeAt(url, markers, r.value).Some?
    decreases |url| - from
  {
    if from >= |url| then None
    else if AlternativeAt(url, markers, from).Some? then Some(from)
    else LeftmostMatch(url, markers, from + 1)
  }

  /** `re.search(pattern, url).group(1)`, or None when the pattern matches nowhere. */
  function SearchGroup(url: string, markers: seq<string>): (r: Option<string>)
    ensures r.Some? ==> r.value != [] && forall i :: 0 <= i < |r.value| ==> IsIdChar(r.value[i])
  {
    match LeftmostMatch(url, markers, 0)
    case None => None
    case Some(p) => Some(GroupAfter(url, p + |AlternativeAt(url, markers, p).value|))
  }

  /** The greedy `([^&\n?#]+)` group starting at `k`. */
  function GroupAfter(url: string, k: nat): (g: string)
    requires k < |url| && IsIdChar(url[k])
    ensures g != [] && forall i :: 0 <= i < |g| ==> IsIdChar(g[i])
  {
    url[k..k + RunLength(url, k)]
  }

  /** `extract_video_id`: the first pattern's group, else the second pattern's, else None. */
  function ExtractVideoId(url: string): (r: Option<string>)
    ensures r.Some? ==> r.value != [] && forall i :: 0 <= i < |r.value| ==> IsIdChar(r.value[i])
  {
    match SearchGroup(url, ShareMarkers)
    case Some(id) => Some(id)
    case None => SearchGroup(url, EmbedMarkers)
  }

  // A reference description of a match, independent of the scan above.

  /** `id` is the whole run of id characters starting at `k`, and is not empty. */
  ghost predicate IsMaximalRun(url: string, k: nat, id: string) {
    && id != []
    && k + |id| <= |url|
    && url[k..k + |id|] == id
    && (forall i :: 0 <= i < |id| ==> IsIdChar(id[i]))
    && (k + |id| == |url| || !IsIdChar(url[k + |id|]))
  }

  /** Some alternative of `markers` occurs at `p` and is immediately followed by the run `id`. */
  ghost predicate GroupAt(url: string, markers: seq<string>, p: nat, id: string) {
    exists m :: m in markers && OccursAt(url, m, p) && IsMaximalRun(url, p + |m|, id)
  }

  /** No alternative of `markers` matches at any position before `p`. */
  ghost predicate NoMatchBefore(url: string, markers: seq<string>, p: nat) {
    forall q: nat, m :: q < p && m in markers ==> !MarkerMatchesAt(url, m, q)
  }

  ghost predicate MatchesNowhere(url: string, markers: seq<string>) {
    forall q: nat, m :: m in markers ==> !MarkerMatchesAt(url, m, q)
  }

  /** The leftmost match of `markers` in `url` yields the group `id`. */
  ghost predicate FoundBy(url: string, markers: seq<string>, id: string) {
    exists p: nat :: GroupAt(url, markers, p, id) && NoMatchBefore(url, markers, p)
  }

  /** No two alternatives of `markers` can occur at the same position. */
  ghost predicate Exclusive(markers: seq<string>) {
    forall url: string, p: nat, m1, m2 :: m1 in markers && m2 in markers && OccursAt(url, m1, p) && OccursAt(url, m2, p) ==> m1 == m2
  }

  /** "youtube.com/watch?v=" and "youtu.be/" differ at their sixth character. */
  lemma ShareMarkersExclusive()
    ensures Exclusive(ShareMarkers)
  {
    forall url: string, p: nat, m1, m2 | m1 in ShareMarkers && m2 in ShareMarkers && OccursAt(url, m1, p) && OccursAt(url, m2, p)
      ensures m1 == m2
    {
      assert url[p..p + |m1|][5] == url[p + 5] == url[p..p + |m2|][5];
      assert WatchMarker[5] != ShortMarker[5];
    }
  }

  lemma EmbedMarkersExclusive()
    ensures Exclusive(EmbedMarkers)
  {
  }

  /** The greedy group is the unique maximal run. */
  lemma MaximalRunIsRunLength(url: string, k: nat, id: string)
    requires IsMaximalRun(url, k, id)
    ensures k < |url| && IsIdChar(url[k]) && id == GroupAfter(url, k)
  {
    var n := RunLength(url, k);
    assert forall i :: k <= i < k + |id| ==> url[i] == id[i - k];
    assert |id| == n;
  }

  /** A marker does not occur where one of its characters is missing or different. */
  lemma NotOccursAt(url: string, m: string, q: nat, j: nat)
    requires j < |m|
    requires q + j < |url| ==> url[q + j] != m[j]
    ensures !OccursAt(url, m, q)
  {
  }

  /** When no alternative is picked at `p`, none matches there. */
  lemma {:induction false} AlternativeAtNone(url: string, markers: seq<string>, p: nat)
    requires AlternativeAt(url, markers, p).None?
    ensures forall m :: m in markers ==> !MarkerMatchesAt(url, m, p)
    decreases |markers|
  {
    if markers != [] {
      AlternativeAtNone(url, markers[1..], p);
      assert forall m :: m in markers ==> m == markers[0] || m in markers[1..];
    }
  }

  /** The scan passes over no position where the pattern matches. */
  lemma {:induction false} LeftmostMatchSkips(url: string, markers: seq<string>, from: nat, q: nat)
    requires from <= q
    requires LeftmostMatch(url, markers, from).Some? ==> q < LeftmostMatch(url, markers, from).value
    ensures AlternativeAt(url, markers, q).None?
    decreases |url| - from
  {
    if from < |url| && q > from {
      LeftmostMatchSkips(url, markers, from + 1, q);
    }
  }

  /** The scan from `from` stops at the first position from `from` on where the pattern matches. */
  lemma {:induction false} LeftmostMatchFinds(url: string, markers: seq<string>, from: nat, p: nat)
    requires from <= p && AlternativeAt(url, markers, p).Some?
    requires forall q :: from <= q < p ==> AlternativeAt(url, markers, q).None?
    ensures LeftmostMatch(url, markers, from) == Some(p)
    decreases p - from
  {
    if from < p {
      LeftmostMatchFinds(url, markers, from + 1, p);
    }
  }

  /** What the scan returns is the reference match. */
  lemma SearchGroupFound(url: string, markers: seq<string>)
    requires SearchGroup(url, markers).Some?
    ensures FoundBy(url, markers, SearchGroup(url, markers).value)
  {
    var id := SearchGroup(url, markers).value;
    var p := LeftmostMatch(url, markers, 0).value;
    var m := AlternativeAt(url, markers, p).value;
    var k := p + |m|;
    assert id == url[k..k + RunLength(url, k)];
    assert IsMaximalRun(url, k, id);
    assert GroupAt(url, markers, p, id);
    forall q: nat, m' | q < p && m' in markers
      ensures !MarkerMatchesAt(url, m', q)
    {
      LeftmostMatchSkips(url, markers, 0, q);
      AlternativeAtNone(url, markers, q);
    }
    assert NoMatchBefore(url, markers, p);
  }

  /** A position where the pattern matches, with no match before it, is where the scan stops. */
  lemma LeftmostMatchIs(url: string, markers: seq<string>, p: nat)
    requires AlternativeAt(url, markers, p).Some?
    requires NoMatchBefore(url, markers, p)
    ensures LeftmostMatch(url, markers, 0) == Some(p)
  {
    forall q | 0 <= q < p
      ensures AlternativeAt(url, markers, q).None?
    {
      assert forall m :: m in markers ==> !MarkerMatchesAt(url, m, q);
    }
    LeftmostMatchFinds(url, markers, 0, p);
  }

  /** With non-overlapping alternatives, the one that matches at `p` is the one the scan picks there. */
  lemma {:induction false} AlternativeIsMarker(url: string, markers: seq<string>, p: nat, m: string)
    requires Exclusive(markers)
    requires m in markers && MarkerMatchesAt(url, m, p)
    ensures AlternativeAt(url, markers, p) == Some(m)
    decreases |markers|
  {
    if MarkerMatchesAt(url, markers[0], p) {
      assert OccursAt(url, markers[0], p) && OccursAt(url, m, p);
    } else {
      assert m in markers[1..];
      AlternativeIsMarker(url, markers[1..], p, m);
    }
  }

  /** When the scan stops at `p` on the alternative `m`, the group is the run after `m`. */
  lemma SearchGroupAt(url: string, markers: seq<string>, p: nat, m: string, id: string)
    requires LeftmostMatch(url, markers, 0) == Some(p)
    requires AlternativeAt(url, markers, p) == Some(m)
    requires p + |m| < |url| && IsIdChar(url[p + |m|]) && id == GroupAfter(url, p + |m|)
    ensures SearchGroup(url, markers) == Some(id)
  {
  }

  /** The position and the alternative of a reference match. */
  lemma PickMatch(url: string, markers: seq<string>, id: string) returns (p: nat, m: string)
    requires FoundBy(url, markers, id)
    ensures m in markers && OccursAt(url, m, p)
    ensures IsMaximalRun(url, p + |m|, id) && NoMatchBefore(url, markers, p)
  {
    p :| GroupAt(url, markers, p, id) && NoMatchBefore(url, markers, p);
    m :| m in markers && OccursAt(url, m, p) && IsMaximalRun(url, p + |m|, id);
  }

  /** A marker followed by a non-empty run matches. */
  lemma RunMakesMatch(url: string, m: string, p: nat, id: string)
    requires OccursAt(url, m, p) && IsMaximalRun(url, p + |m|, id)
    ensures MarkerMatchesAt(url, m, p)
  {
    assert url[p + |m|..p + |m| + |id|][0] == url[p + |m|];
  }

  /** A leftmost match of `m` at `p` followed by the run `id` is what the scan returns. */
  lemma MatchIsFound(url: string, markers: seq<string>, p: nat, m: string, id: string)
    requires Exclusive(markers)
    requires m in markers && OccursAt(url, m, p)
    requires IsMaximalRun(url, p + |m|, id) && NoMatchBefore(url, markers, p)
    ensures SearchGroup(url, markers) == Some(id)
  {
    RunMakesMatch(url, m, p, id);
    AlternativeIsMarker(url, markers, p, m);
    LeftmostMatchIs(url, markers, p);
    MaximalRunIsRunLength(url, p + |m|, id);
    SearchGroupAt(url, markers, p, m, id);
  }

  /** The reference match is what the scan returns, when alternatives never overlap. */
  lemma FoundBySearchGroup(url: string, markers: seq<string>, id: string)
    requires Exclusive(markers)
    requires FoundBy(url, markers, id)
    ensures SearchGroup(url, markers) == Some(id)
  {
    var p, m := PickMatch(url, markers, id);
    MatchIsFound(url, markers, p, m, id);
  }

  /** The scan finds exactly the reference match: leftmost position, first alternative there, maximal run. */
  lemma SearchGroupSpec(url: string, markers: seq<string>, id: string)
    requires Exclusive(markers)
    ensures SearchGroup(url, markers) == Some(id) <==> FoundBy(url, markers, id)
  {
    if SearchGroup(url, markers) == Some(id) {
      SearchGroupFound(url, markers);
    }
    if FoundBy(url, markers, id) {
      FoundBySearchGroup(url, markers, id);
    }
  }

  /** When the pattern matches nowhere, the search returns None, and conversely. */
  lemma SearchGroupNone(url: string, markers: seq<string>)
    ensures SearchGroup(url, markers).None? <==> MatchesNowhere(url, markers)
  {
    if SearchGroup(url, markers).None? {
      forall q: nat, m | m in markers
        ensures !MarkerMatchesAt(url, m, q)
      {
        LeftmostMatchSkips(url, markers, 0, q);
        AlternativeAtNone(url, markers, q);
      }
    }
    if MatchesNowhere(url, markers) {
      assert LeftmostMatch(url, markers, 0).None?;
    }
  }

  /**
   * `extract_video_id` returns `id` exactly when `id` is the maximal run after the
   * leftmost "youtube.com/watch?v=" or "youtu.be/" that has one, or, only when the
   * first pattern matches nowhere, after the leftmost "youtube.com/embed/" that has one.
   */
  lemma ExtractVideoIdSpec(url: string, id: string)
    ensures ExtractVideoId(url) == Some(id) <==>
              FoundBy(url, ShareMarkers, id) || (MatchesNowhere(url, ShareMarkers) && FoundBy(url, EmbedMarkers, id))
  {
    ShareMarkersExclusive();
    EmbedMarkersExclusive();
    SearchGroupSpec(url, ShareMarkers, id);
    SearchGroupSpec(url, EmbedMarkers, id);
    SearchGroupNone(url, ShareMarkers);
  }

  /** `extract_video_id` returns None exactly when neither pattern matches anywhere. */
  lemma ExtractVideoIdNone(url: string)
    ensures ExtractVideoId(url).None? <==> MatchesNowhere(url, ShareMarkers) && MatchesNowhere(url, EmbedMarkers)
  {
    SearchGroupNone(url, ShareMarkers);
    SearchGroupNone(url, EmbedMarkers);
  }

  /** Every character of a "https://" prefix differs from the 'y' all markers start with. */
  lemma NoMarkerInScheme(url: string, markers: seq<string>)
    requires |url| >= 8 && url[..8] == "https://"
    requires forall m :: m in markers ==> m != [] && m[0] == 'y'
    ensures NoMatchBefore(url, markers, 8)
  {
    forall q: nat, m | q < 8 && m in markers
      ensures !MarkerMatchesAt(url, m, q)
    {
      assert url[..8][q] == url[q] != 'y';
      NotOccursAt(url, m, q, 0);
    }
  }

  /** A short link at `s`, running to the end of the URL, with no share link before it, is what is extracted. */
  lemma ShortLinkWins(url: string, s: nat, b: string)
    requires b != [] && forall i :: 0 <= i < |b| ==> IsIdChar(b[i])
    requires s <= |url| && url[s..] == ShortMarker + b
    requires NoMatchBefore(url, ShareMarkers, s)
    ensures ExtractVideoId(url) == Some(b)
  {
    assert |url| == s + 9 + |b|;
    assert url[s..s + 9] == url[s..][..9] == ShortMarker;
    assert url[s + 9..s + 9 + |b|] == url[s..][9..] == b;
    assert IsMaximalRun(url, s + 9, b);
    ShareMarkersExclusive();
    RunMakesMatch(url, ShortMarker, s, b);
    AlternativeIsMarker(url, ShareMarkers, s, ShortMarker);
    LeftmostMatchIs(url, ShareMarkers, s);
    MaximalRunIsRunLength(url, s + 9, b);
    SearchGroupAt(url, ShareMarkers, s, ShortMarker, b);
  }

  /** Round trip: a short link to any well-formed id gives that id back. */
  lemma ExtractVideoIdShortLink(id: string)
    requires id != []
    requires forall i :: 0 <= i < |id| ==> IsIdChar(id[i])
    ensures ExtractVideoId("https://youtu.be/" + id) == Some(id)
  {
    var url := "https://youtu.be/" + id;
    assert url[..8] == "https://";
    assert url[8..] == ShortMarker + id;
    NoMarkerInScheme(url, ShareMarkers);
    ShortLinkWins(url, 8, id);
  }

  /** In `EmbedMarker + a + "&" + ShortMarker + b`, the embed pattern alone would give `a`. */
  lemma EmbedLinkMatchesFirst(a: string, b: string)
    requires a != []
    requires forall i :: 0 <= i < |a| ==> IsIdChar(a[i])
    ensures FoundBy(EmbedMarker + a + "&" + ShortMarker + b, EmbedMarkers, a)
  {
    var url := EmbedMarker + a + "&" + ShortMarker + b;
    assert url[..18] == EmbedMarker;
    assert url[18..18 + |a|] == a;
    assert url[18 + |a|] == '&';
    assert IsMaximalRun(url, 18, a);
    assert GroupAt(url, EmbedMarkers, 0, a);
    assert NoMatchBefore(url, EmbedMarkers, 0);
  }

  /** Neither share marker starts inside `EmbedMarker + a + "&"` when `a` holds no 'y'. */
  lemma NoShareLinkBefore(url: string, a: string)
    requires forall i :: 0 <= i < |a| ==> a[i] != 'y'
    requires |url| > 18 + |a| && url[..18] == EmbedMarker && url[18..18 + |a|] == a && url[18 + |a|] == '&'
    ensures NoMatchBefore(url, ShareMarkers, 18 + |a| + 1)
  {
    forall q: nat, m | q < 18 + |a| + 1 && m in ShareMarkers
      ensures !MarkerMatchesAt(url, m, q)
    {
      if q == 0 {
        assert url[..18][5] == url[5] && url[..18][12] == url[12];
        if m == WatchMarker {
          NotOccursAt(url, m, q, 12);
        } else {
          NotOccursAt(url, m, q, 5);
        }
      } else if q < 18 {
        assert url[..18][q] == url[q];
        NotOccursAt(url, m, q, 0);
      } else if q < 18 + |a| {
        assert url[18..18 + |a|][q - 18] == url[q];
        NotOccursAt(url, m, q, 0);
      } else {
        NotOccursAt(url, m, q, 0);
      }
    }
  }

  /** Where the pieces of `EmbedMarker + a + "&" + ShortMarker + b` sit. */
  lemma EmbedThenShortLayout(a: string, b: string)
    ensures var url := EmbedMarker + a + "&" + ShortMarker + b;
            && |url| > 18 + |a|
            && url[..18] == EmbedMarker
            && url[18..18 + |a|] == a
            && url[18 + |a|] == '&'
            && url[18 + |a| + 1..] == ShortMarker + b
  {
    var head := EmbedMarker + a + "&";
    var url := head + (ShortMarker + b);
    assert url == EmbedMarker + a + "&" + ShortMarker + b;
    assert url[..18] == head[..18] == EmbedMarker;
    assert url[18..18 + |a|] == head[18..18 + |a|] == a;
    assert url[18 + |a|] == head[18 + |a|] == '&';
    assert url[|head|..] == ShortMarker + b;
  }

  /**
   * The embed pattern is only a fallback: in `EmbedMarker + a + "&" + ShortMarker + b`
   * the embed link comes first and would match, yet the later short link wins.
   */
  lemma ExtractVideoIdPrefersShareLinks(a: string, b: string)
    requires a != [] && b != []
    requires forall i :: 0 <= i < |a| ==> IsIdChar(a[i]) && a[i] != 'y'
    requires forall i :: 0 <= i < |b| ==> IsIdChar(b[i])
    ensures FoundBy(EmbedMarker + a + "&" + ShortMarker + b, EmbedMarkers, a)
    ensures ExtractVideoId(EmbedMarker + a + "&" + ShortMarker + b) == Some(b)
  {
    EmbedLinkMatchesFirst(a, b);
    var url := EmbedMarker + a + "&" + ShortMarker + b;
    EmbedThenShortLayout(a, b);
    NoShareLinkBefore(url, a);
    ShortLinkWins(url, 18 + |a| + 1, b);
  }

  /** A URL that passes `validate_youtube_url` can still hold no video id. */
  lemma ValidUrlWithoutVideoId()
    ensures RequestsModel.ValidateYoutubeUrl("https://youtube.com/").Success?
    ensures ExtractVideoId("https://youtube.com/") == None
  {
    var url := "https://youtube.com/";
    assert OccursAt(url, "youtube.com", 8);
    forall q: nat, m | m in ShareMarkers + EmbedMarkers
      ensures !MarkerMatchesAt(url, m, q)
    {
      if m == ShortMarker && q + 9 < 20 {
        if q == 8 {
          NotOccursAt(url, m, q, 5);
        } else {
          NotOccursAt(url, m, q, 0);
        }
      } else if m == EmbedMarker && q + 18 < 20 {
        NotOccursAt(url, m, q, 0);
      }
    }
    ExtractVideoIdNone(url);
  }

  // ---------------------------------------------------------------------------
  // Transcripts and the analysis request
  // ---------------------------------------------------------------------------

  /** `get_youtube_transcript`: the fetched entry texts joined by single spaces; a failed fetch propagates. */
  function GetYoutubeTranscript(videoId: string, fetch: string -> Result<seq<string>, string>): (r: Result<string, string>)
    ensures r.Success? <==> fetch(videoId).Success?
    ensures r.Success? ==> r.value == Join(" ", fetch(videoId).value)
  {
    match fetch(videoId)
    case Failure(e) => Failure(e)
    case Success(entries) => Success(Join(" ", entries))
  }

  /** `transcribe_audio`: refuses without a loaded model, else joins the segment texts by single spaces. */
  function TranscribeAudio(modelLoaded: bool, segments: Result<seq<string>, string>): (r: Result<string, string>)
    ensures !modelLoaded ==> r == Failure("Whisper model not initialized")
    ensures modelLoaded ==> (r.Success? <==> segments.Success?)
    ensures r.Success? ==> r.value == Join(" ", segments.value)
  {
    if !modelLoaded then Failure("Whisper model not initialized")
    else
      match segments
      case Failure(e) => Failure(e)
      case Success(texts) => Success(Join(" ", texts))
  }

  /** A transcript keeps its pieces in order: it splits, at any piece boundary, into the transcript of each side. */
  lemma TranscriptSplits(texts: seq<string>, k: nat)
    requires 0 < k < |texts|
    ensures Join(" ", texts) == Join(" ", texts[..k]) + " " + Join(" ", texts[k..])
  {
    JoinSplit(" ", texts, k);
  }

  /** `transcript[:15000]`: the part of the transcript the analysis prompt quotes. */
  function TranscriptExcerpt(transcript: string): (r: string)
    ensures StartsWith(transcript, r)
    ensures |r| <= 15000
    ensures |transcript| <= 15000 ==> r == transcript
    ensures |transcript| > 15000 ==> |r| == 15000
  {
    Truncate(transcript, MaxTranscriptChars)
  }

  /**
   * `analyze_transcript`: asks the model about the excerpt and cleans the JSON
   * text out of its reply exactly as `parse_json_response` does. The prompt
   * template around the excerpt belongs to `generate`.
   */
  function AnalyzeTranscript(transcript: string, generate: string -> Result<GeminiService.GenerateResponse, string>): (r: Result<string, string>)
    ensures generate(TranscriptExcerpt(transcript)).Failure? ==> r.Failure?
    ensures r.Success? ==>
              var text := GeminiService.FirstCandidateText(generate(TranscriptExcerpt(transcript)).value);
              text.Some? && r.value == GeminiService.ParseJsonText(text.value)
    ensures var reply := generate(TranscriptExcerpt(transcript));
            reply.Success? && GeminiService.FirstCandidateText(reply.value).Some? ==> r.Success?
  {
    GeminiService.AnalysisJsonText(generate(TranscriptExcerpt(transcript)))
  }

  /** A reply that wraps `body` in a "```json" fence yields `body`, stripped. */
  lemma AnalyzeTranscriptFenced(transcript: string, generate: string -> Result<GeminiService.GenerateResponse, string>,
                                pre: string, body: string, post: string)
    requires AllSpace(pre) && AllSpace(post)
    requires generate(TranscriptExcerpt(transcript)) ==
               Success(GeminiService.GenerateResponse([GeminiService.Candidate(GeminiService.Content(
                 [GeminiService.Part(pre + GeminiService.JsonOpenFence + body + GeminiService.CloseFence + post)]))]))
    ensures AnalyzeTranscript(transcript, generate) == Success(Strip(body))
  {
    GeminiService.AnalysisJsonTextFenced(pre, body, post);
  }
}

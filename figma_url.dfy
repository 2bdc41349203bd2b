/**
 * `extract_figma_file_key`: the file key of a design URL, found with the
 * regular expression `figma\.com/file/([a-zA-Z0-9]+)` under `re.search` —
 * the leftmost place where the literal text is followed by at least one
 * ASCII letter or digit, and the longest run of those that follows.
 */
module FigmaUrl {
  import opened Wrappers

  const FilePrefix: string := "figma.com/file/"

  /** `[a-zA-Z0-9]` */
  predicate IsKeyChar(c: char) {
    ('a' <= c <= 'z') || ('A' <= c <= 'Z') || ('0' <= c <= '9')
  }

  /** The whole pattern matches starting at position `p` of `url`. */
  predicate MatchesAt(url: string, p: nat) {
    p + |FilePrefix| < |url| && url[p..p + |FilePrefix|] == FilePrefix && IsKeyChar(url[p + |FilePrefix|])
  }

  /** The greedy group `([a-zA-Z0-9]+)`: the longest prefix of `s` made of key characters. */
  function KeyRun(s: string): (r: string)
    ensures r <= s
    ensures forall k :: 0 <= k < |r| ==> IsKeyChar(r[k])
    ensures |r| == |s| || !IsKeyChar(s[|r|])
  {
    if s != [] && IsKeyChar(s[0]) then [s[0]] + KeyRun(s[1..]) else []
  }

  /** The group takes exactly a run of key characters that is followed by the end or by another character. */
  lemma {:induction false} KeyRunOf(key: string, rest: string)
    requires forall k :: 0 <= k < |key| ==> IsKeyChar(key[k])
    requires rest == [] || !IsKeyChar(rest[0])
    ensures KeyRun(key + rest) == key
  {
    if key != [] {
      assert (key + rest)[0] == key[0];
      assert (key + rest)[1..] == key[1..] + rest;
      KeyRunOf(key[1..], rest);
    } else {
      assert key + rest == rest;
    }
  }

  /** The leftmost position at or after `from` where the pattern matches. */
  function SearchFrom(url: string, from: nat): (r: Option<nat>)
    requires from <= |url|
    ensures r.Some? ==> from <= r.value < |url| && MatchesAt(url, r.value)
                          && forall q :: from <= q < r.value ==> !MatchesAt(url, q)
    ensures r.None? <==> forall q :: from <= q < |url| ==> !MatchesAt(url, q)
    decreases |url| - from
  {
    if from == |url| then None
    else if MatchesAt(url, from) then Some(from)
    else SearchFrom(url, from + 1)
  }

  function ExtractFigmaFileKey(url: string): (r: Option<string>)
    ensures r.None? <==> forall p :: 0 <= p < |url| ==> !MatchesAt(url, p)
  {
    match SearchFrom(url, 0)
    case None => None
    case Some(p) => Some(KeyRun(url[p + |FilePrefix|..]))
  }

  /**
   * A returned key is a non-empty run of ASCII letters and digits that
   * starts right after the leftmost occurrence of the pattern and is
   * followed, in the URL, by a character outside that class or by the end
   * of the URL.
   */
  lemma FileKeySpec(url: string)
    requires ExtractFigmaFileKey(url).Some?
    ensures SearchFrom(url, 0).Some?
    ensures var key := ExtractFigmaFileKey(url).value;
            var p := SearchFrom(url, 0).value;
            var start := p + |FilePrefix|;
            && key != []
            && (forall k :: 0 <= k < |key| ==> IsKeyChar(key[k]))
            && MatchesAt(url, p)
            && (forall q :: 0 <= q < p ==> !MatchesAt(url, q))
            && start + |key| <= |url|
            && url[start..start + |key|] == key
            && (start + |key| == |url| || !IsKeyChar(url[start + |key|]))
  {
    LeftmostMatch(url);
    var p := SearchFrom(url, 0).value;
    var start := p + |FilePrefix|;
    KeyOfRun(url, start);
    assert ExtractFigmaFileKey(url).value == KeyRun(url[start..]);
  }

  /** A key comes from the leftmost match, which is followed by a key character. */
  lemma LeftmostMatch(url: string)
    requires ExtractFigmaFileKey(url).Some?
    ensures SearchFrom(url, 0).Some?
    ensures var p := SearchFrom(url, 0).value;
            && MatchesAt(url, p)
            && (forall q :: 0 <= q < p ==> !MatchesAt(url, q))
            && p + |FilePrefix| < |url| && IsKeyChar(url[p + |FilePrefix|])
            && ExtractFigmaFileKey(url).value == KeyRun(url[p + |FilePrefix|..])
  {
    var found := SearchFrom(url, 0);
    assert found.Some?;
    assert MatchesAt(url, found.value);
  }

  /** The run taken at `start` is a slice of the URL there, non-empty when a key character is at `start`. */
  lemma KeyOfRun(url: string, start: nat)
    requires start < |url| && IsKeyChar(url[start])
    ensures var key := KeyRun(url[start..]);
            && key != []
            && (forall k :: 0 <= k < |key| ==> IsKeyChar(key[k]))
            && start + |key| <= |url|
            && url[start..start + |key|] == key
            && (start + |key| == |url| || !IsKeyChar(url[start + |key|]))
  {
    var rest := url[start..];
    var key := KeyRun(rest);
    assert rest[0] == url[start];
    assert key == rest[..|key|];
    assert url[start..start + |key|] == rest[..|key|];
    if start + |key| < |url| {
      assert rest[|key|] == url[start + |key|];
    }
  }
}

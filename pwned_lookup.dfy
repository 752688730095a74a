/**
 * `isPwnedPassword`: the k-anonymity range lookup against the Pwned Passwords API. The SHA-1 digest
 * and the network call are inputs: `digest` is the lower-case hex digest, and `fetch` answers a URL.
 */
module PwnedLookup {
  import opened JsText

  /** What `fetch(url)` and `response.text()` produce; `Threw` is any exception on the way. */
  datatype FetchResult = Threw | Response(ok: bool, text: string)

  const RangeApi: string := "https://api.pwnedpasswords.com/range/"

  /** `digest.substring(0, 5)`. */
  function Prefix(digest: string): (r: string)
    ensures |r| <= 5 && |r| <= |digest| && r == digest[..|r|]
    ensures |digest| >= 5 ==> r == digest[..5]
    ensures |digest| < 5 ==> r == digest
  {
    if |digest| <= 5 then digest else digest[..5]
  }

  /** `digest.substring(5).toUpperCase()`. */
  function Suffix(digest: string): string {
    Upper(if |digest| <= 5 then "" else digest[5..])
  }

  /** The request URL: the API base followed by the prefix, and nothing else of the digest. */
  function RangeUrl(digest: string): (url: string)
    ensures |RangeApi| <= |url| && url[..|RangeApi|] == RangeApi && url[|RangeApi|..] == Prefix(digest)
    ensures |digest| >= 5 ==> url[|RangeApi|..] == digest[..5]
  {
    RangeApi + Prefix(digest)
  }

  /** `const [hashSuffix] = line.split(":")`: the text before the first colon. */
  function HashSuffix(line: string): (h: string)
    ensures ':' !in h && |h| <= |line| && h == line[..|h|]
    ensures |h| < |line| ==> line[|h|] == ':'
  {
    var pieces := Split(line, ":");
    SplitPiecesAvoidSeparator(line, ':');
    assert pieces[0] in pieces;
    JoinSplit(line, ":");
    assert |pieces| > 1 ==> Join(pieces, ":") == pieces[0] + ":" + Join(pieces[1..], ":");
    pieces[0]
  }

  /** `lines.some(line => hashSuffix(line).toUpperCase() === suffix)`. */
  function AnyLineMatches(lines: seq<string>, suffix: string): (found: bool)
    ensures found <==> exists i :: 0 <= i < |lines| && Upper(HashSuffix(lines[i])) == suffix
  {
    if lines == [] then false
    else
      var rest := AnyLineMatches(lines[1..], suffix);
      assert forall i :: 0 < i < |lines| ==> lines[i] == lines[1..][i - 1];
      assert rest ==> exists i :: 0 < i < |lines| && Upper(HashSuffix(lines[i])) == suffix;
      Upper(HashSuffix(lines[0])) == suffix || rest
  }

  /** `isPwnedPassword`: a failed request or a non-ok status counts as "not pwned" (fail open). */
  function IsPwnedPassword(digest: string, fetch: string -> FetchResult): bool {
    match fetch(RangeUrl(digest))
    case Threw => false
    case Response(ok, text) => ok && AnyLineMatches(Split(text, "\r\n"), Suffix(digest))
  }

  /**
   * Pwned iff the request to the prefix URL succeeded with an ok status and some CRLF-separated
   * line's text before ':' equals the digest's suffix, ignoring case; the lines are the whole body.
   */
  lemma PwnedIff(digest: string, fetch: string -> FetchResult)
    ensures IsPwnedPassword(digest, fetch) <==>
      && fetch(RangeUrl(digest)).Response?
      && fetch(RangeUrl(digest)).ok
      && exists i :: 0 <= i < |Split(fetch(RangeUrl(digest)).text, "\r\n")|
           && Upper(HashSuffix(Split(fetch(RangeUrl(digest)).text, "\r\n")[i])) == Upper(Suffix(digest))
    ensures fetch(RangeUrl(digest)).Response? ==>
      Join(Split(fetch(RangeUrl(digest)).text, "\r\n"), "\r\n") == fetch(RangeUrl(digest)).text
    ensures fetch(RangeUrl(digest)).Response? ==>
      forall line :: line in Split(fetch(RangeUrl(digest)).text, "\r\n") ==> !Contains(line, "\r\n")
  {
    assert Upper(Suffix(digest)) == Suffix(digest);
    if fetch(RangeUrl(digest)).Response? {
      JoinSplit(fetch(RangeUrl(digest)).text, "\r\n");
      SplitPiecesOmitSeparator(fetch(RangeUrl(digest)).text, "\r\n");
    }
  }

  /** Any exception or a non-ok status yields "not pwned". */
  lemma FailOpen(digest: string, fetch: string -> FetchResult)
    requires fetch(RangeUrl(digest)) == Threw || !fetch(RangeUrl(digest)).ok
    ensures !IsPwnedPassword(digest, fetch)
  {
  }

  /** Two digests sharing a prefix send the same request: the service never sees more than the prefix. */
  lemma OnlyPrefixSent(d1: string, d2: string)
    requires |d1| >= 5 && |d2| >= 5 && d1[..5] == d2[..5]
    ensures RangeUrl(d1) == RangeUrl(d2)
  {
  }
}

/** Normalizing the public base URL (internal/config/config.go). */
module BaseURLs {
  import opened Storage
  import opened Declarations

  function TrimLeft(s: string): (r: string)
    ensures |r| <= |s| && r == s[|s| - |r|..]
    ensures r != "" ==> !IsSpace(r[0])
    ensures Blank(s[..|s| - |r|])
  {
    if s != "" && IsSpace(s[0]) then TrimLeft(s[1..]) else s
  }

  function TrimRight(s: string): (r: string)
    ensures |r| <= |s| && r == s[..|r|]
    ensures r != "" ==> !IsSpace(r[|r| - 1])
    ensures Blank(s[|r|..])
  {
    if s != "" && IsSpace(s[|s| - 1]) then TrimRight(s[..|s| - 1]) else s
  }

  /** strings.TrimSpace. */
  function TrimSpace(s: string): string { TrimRight(TrimLeft(s)) }

  /** strings.TrimSuffix(s, "/"). */
  function TrimSlash(s: string): string { if s != "" && s[|s| - 1] == '/' then s[..|s| - 1] else s }

  /** isOrigin: what url.Parse and the checks of its parts accept. */
  function NormalizeBaseURL(isOrigin: string -> bool, raw: string): Response<string> {
    var trimmed := TrimSlash(TrimSpace(raw));
    if trimmed == "" || !isOrigin(trimmed) then Err(OtherError) else Ok(trimmed)
  }

  /** What is left of an accepted base URL: all but spaces around it and one slash before those that follow. */
  lemma NormalizeExact(isOrigin: string -> bool, raw: string, url: string)
    requires NormalizeBaseURL(isOrigin, raw) == Ok(url)
    ensures url != "" && isOrigin(url)
    ensures exists before, after ::
      && Blank(before) && Blank(after)
      && (|| (raw == before + url + after && url[|url| - 1] != '/' && !IsSpace(url[|url| - 1]))
          || raw == before + url + "/" + after)
  {
    hide TrimLeft, TrimRight, IsSpace, Blank;
    var s := TrimLeft(raw);
    var t := TrimRight(s);
    var before, after := raw[..|raw| - |s|], s[|t|..];
    assert raw == before + s && s == t + after;
    if t[|t| - 1] == '/' {
      assert t == url + "/";
      assert raw == before + url + "/" + after;
    } else {
      assert raw == before + url + after;
    }
  }

  /** Normalization removes one slash, so it can leave something to remove: exactly a slash or a space at the end. */
  predicate Settles(url: string) { url != "" && url[|url| - 1] != '/' && !IsSpace(url[|url| - 1]) }

  lemma NormalizesToItself(isOrigin: string -> bool, raw: string)
    requires NormalizeBaseURL(isOrigin, raw).Ok?
    ensures var url := NormalizeBaseURL(isOrigin, raw).value;
      NormalizeBaseURL(isOrigin, url) == Ok(url) <==> Settles(url)
  {
    hide TrimLeft, TrimRight, IsSpace;
    var url := NormalizeBaseURL(isOrigin, raw).value;
    StartKept(raw);
    TrimsNothing(url);
    assert TrimSlash(TrimSpace(url)) == url <==> Settles(url);
  }

  lemma StartKept(raw: string)
    requires TrimSlash(TrimSpace(raw)) != ""
    ensures !IsSpace(TrimSlash(TrimSpace(raw))[0])
  {
    hide TrimLeft, TrimRight, IsSpace;
    var left := TrimLeft(raw);
    assert TrimRight(left)[0] == left[0];
  }

  lemma TrimsNothing(url: string)
    requires url != "" && !IsSpace(url[0])
    ensures TrimSpace(url) == TrimRight(url)
    ensures TrimSlash(TrimSpace(url)) == url <==> Settles(url)
  {
    assert TrimLeft(url) == url;
    if !IsSpace(url[|url| - 1]) {
      assert TrimRight(url) == url;
    } else {
      assert |TrimRight(url)| < |url|;
    }
  }

  /** A base URL with a doubled slash at its end is planned with the single one left. */
  lemma DoubledSlash(isOrigin: string -> bool)
    requires isOrigin("https://h/")
    ensures NormalizeBaseURL(isOrigin, "https://h//") == Ok("https://h/") && !Settles("https://h/")
  {
    var raw := "https://h//";
    assert TrimLeft(raw) == raw && TrimRight(raw) == raw;
    assert TrimSlash(raw) == "https://h/";
  }
}

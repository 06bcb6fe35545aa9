/**
 * The gate `load` puts in front of the audio engine: a source URL is playable
 * only when the piece after its last '.' is one of the whitelisted formats.
 */
module AudioFormat {
  import opened Wrappers
  import opened Strings

  /** The allowable audio formats, compared with strict equality. */
  const Whitelist: seq<string> := ["mp3", "ogg", "mp4"]

  /**
   * `url.split('.')`, last element: it holds no '.', and the URL is it or ends
   * with '.' and it, so it is the whole URL when that holds no '.'.
   */
  function Extension(url: string): (ext: string)
    ensures '.' !in ext && HasExtension(url, ext)
  {
    LastSegmentIsSuffix(url, '.');
    LastSegment(url, '.')
  }

  /**
   * The reference reading of "has extension `ext`", without `split`: the URL
   * is `ext` itself or ends with '.' followed by `ext`.
   */
  predicate HasExtension(url: string, ext: string)
  {
    url == ext || (|url| > |ext| && url[|url| - |ext| - 1..] == ['.'] + ext)
  }

  /** For an extension without dots, the two readings agree. */
  lemma ExtensionIff(url: string, ext: string)
    requires '.' !in ext
    ensures HasExtension(url, ext) <==> Extension(url) == ext
  {
    LastSegmentIsSuffix(url, '.');
    if url == ext {
      SplitWithoutSeparator(url, '.');
    } else if |url| > |ext| && url[|url| - |ext| - 1..] == ['.'] + ext {
      var x := url[..|url| - |ext| - 1];
      assert url == x + ['.'] + ext;
      LastSegmentAfterSeparator(x, '.', ext);
    }
  }

  /**
   * `parseValidAudioFormat`: an absent or empty URL is rejected; otherwise the
   * URL is accepted exactly when it is "mp3", "ogg" or "mp4" or ends with
   * ".mp3", ".ogg" or ".mp4", case-sensitively.
   */
  function IsValidAudioFormat(url: Option<string>): (valid: bool)
    ensures valid <==> (url.Some? &&
      (HasExtension(url.value, "mp3") || HasExtension(url.value, "ogg") || HasExtension(url.value, "mp4")))
  {
    if url.Some? then
      ExtensionIff(url.value, "mp3");
      ExtensionIff(url.value, "ogg");
      ExtensionIff(url.value, "mp4");
      url.value != "" && Extension(url.value) in Whitelist
    else
      false
  }

  /** A present URL is accepted iff its last '.'-segment is whitelisted; the emptiness test adds nothing. */
  lemma ValidIffExtensionWhitelisted(url: string)
    ensures IsValidAudioFormat(Some(url)) <==> Extension(url) in Whitelist
  {
    if url == "" {
      SplitWithoutSeparator(url, '.');
      assert Extension(url) == "";
    }
  }

  /** Absent, empty and dot-terminated URLs are all rejected. */
  lemma RejectsEmptyAndTrailingDot(url: Option<string>)
    requires url == None || url == Some("") || (url.Some? && |url.value| > 0 && url.value[|url.value| - 1] == '.')
    ensures !IsValidAudioFormat(url)
  {
    if url.Some? && url.value != "" {
      LastSegmentIsSuffix(url.value, '.');
      var x := url.value[..|url.value| - 1];
      assert url.value == x + ['.'] + "";
      LastSegmentAfterSeparator(x, '.', "");
      ValidIffExtensionWhitelisted(url.value);
    }
  }

  /** Without any '.', a URL is valid only when it literally is a whitelisted format. */
  lemma NoDotValidIffWhitelisted(url: string)
    requires '.' !in url
    ensures IsValidAudioFormat(Some(url)) <==> url in Whitelist
  {
    SplitWithoutSeparator(url, '.');
    ValidIffExtensionWhitelisted(url);
  }

  /** Ordinary file names with a whitelisted extension are accepted. */
  lemma AcceptsExamples()
    ensures IsValidAudioFormat(Some("song.mp3"))
    ensures IsValidAudioFormat(Some("a.b.ogg"))
    ensures IsValidAudioFormat(Some("mp4"))
  {
    assert "song.mp3"[4..] == ['.'] + "mp3";
    assert "a.b.ogg"[3..] == ['.'] + "ogg";
  }

  /** A URL with extension `ext` ends with the characters of `ext`. */
  lemma HasExtensionAt(url: string, ext: string, i: nat)
    requires HasExtension(url, ext) && i < |ext|
    ensures |ext| <= |url| && url[|url| - |ext| + i] == ext[i]
  {
    if url != ext {
      assert url[|url| - |ext| + i] == url[|url| - |ext| - 1..][i + 1];
    }
  }

  /**
   * A URL whose character `c`, `i` places into its last three, differs from
   * that place in every whitelisted format is rejected.
   */
  lemma RejectedByCharacter(url: string, i: nat, c: char)
    requires i < 3 && 3 <= |url| && url[|url| - 3 + i] == c
    requires c != "mp3"[i] && c != "ogg"[i] && c != "mp4"[i]
    ensures !IsValidAudioFormat(Some(url))
  {
    if HasExtension(url, "mp3") { HasExtensionAt(url, "mp3", i); }
    if HasExtension(url, "ogg") { HasExtensionAt(url, "ogg", i); }
    if HasExtension(url, "mp4") { HasExtensionAt(url, "mp4", i); }
  }

  /** Matching is case-sensitive: "song.MP3" is rejected. */
  lemma RejectsUpperCase()
    ensures !IsValidAudioFormat(Some("song.MP3"))
  {
    RejectedByCharacter("song.MP3", 0, 'M');
  }

  /** There is no query-string stripping: "song.mp3?x=1" is rejected. */
  lemma RejectsQueryString()
    ensures !IsValidAudioFormat(Some("song.mp3?x=1"))
  {
    RejectedByCharacter("song.mp3?x=1", 2, '1');
  }
}

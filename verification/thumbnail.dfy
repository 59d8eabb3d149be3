/** `getVideoThumbnail`: turns a Cloudinary video URL into the URL of a still
    image by inserting a transformation after the first `/upload/` and
    replacing a trailing `.webm` or `.mp4` with `.jpg`. */
module VideoThumbnail {
  import opened Common
  import opened Strings

  const Upload: string := "/upload/"

  /** The Cloudinary transformation inserted after `/upload/`. */
  const Transformation: string := "w_1280,h_720,c_fill,q_auto,f_auto/"

  const Webm: string := ".webm"
  const Mp4: string := ".mp4"
  const Jpg: string := ".jpg"

  /** The URL ends in one of the video extensions the rewrite replaces. */
  predicate IsVideoName(url: string) {
    EndsWith(url, Webm) || EndsWith(url, Mp4)
  }

  /** The length of the video extension `url` ends with. */
  function ExtLength(url: string): (n: nat)
    requires IsVideoName(url)
    ensures n <= |url|
  {
    if EndsWith(url, Webm) then |Webm| else |Mp4|
  }

  /** Step one, `.replace('/upload/', '/upload/' + transformation)`: the
      transformation goes right after the FIRST `/upload/`; a URL without one
      is left as it is. */
  function InsertTransformation(url: string): (r: string)
    ensures !Contains(url, Upload) ==> r == url
    ensures Contains(url, Upload) ==>
      exists i: nat | FirstAt(url, Upload, i) :: r == url[..i + |Upload|] + Transformation + url[i + |Upload|..]
  {
    InsertAfterFirst(url, Upload, Transformation)
  }

  /** The insertion is the source's string replacement. */
  lemma InsertTransformationIsReplace(url: string)
    ensures InsertTransformation(url) == ReplaceFirst(url, Upload, Upload + Transformation)
  {
    InsertAfterFirstIsReplace(url, Upload, Transformation);
  }

  /** The insertion at the first `/upload/`. */
  lemma FirstUpload(url: string) returns (i: nat)
    requires Contains(url, Upload)
    ensures FirstAt(url, Upload, i)
    ensures InsertTransformation(url) == url[..i + |Upload|] + Transformation + url[i + |Upload|..]
  {
    i := FirstOccurrence(url, Upload);
    InsertAfterFirstAt(url, Upload, Transformation, i);
  }

  /** Where `/\.(webm|mp4)$/` matches when tried at `from`, `from + 1`, …:
      the first position at which `.webm` or `.mp4` starts and runs to the end
      of the string (`$` without the `m` flag). */
  function MatchVideoExt(url: string, from: nat): (r: Option<nat>)
    ensures r.Some? ==> from <= r.value && IsVideoName(url) && r.value == |url| - ExtLength(url)
    ensures r.None? ==> !IsVideoName(url) || |url| - ExtLength(url) < from
    decreases |url| - from
  {
    if from >= |url| then None
    else if StartsAt(url, from, Webm) && from + |Webm| == |url| then
      assert url[from..] == url[from..from + |Webm|];
      Some(from)
    else if StartsAt(url, from, Mp4) && from + |Mp4| == |url| then
      assert url[from..] == url[from..from + |Mp4|];
      LastCharOfSuffix(url, Mp4);
      assert !EndsWith(url, Webm) by {
        if EndsWith(url, Webm) {
          LastCharOfSuffix(url, Webm);
          assert false;
        }
      }
      Some(from)
    else
      assert EndsWith(url, Webm) ==> |url| - |Webm| != from;
      assert EndsWith(url, Mp4) ==> |url| - |Mp4| != from;
      MatchVideoExt(url, from + 1)
  }

  /** Step two, `.replace(/\.(webm|mp4)$/, '.jpg')`: a trailing video
      extension becomes `.jpg` and everything in front of it is kept; any
      other string is left as it is. */
  function SwapExtension(url: string): (r: string)
    ensures IsVideoName(url) ==> EndsWith(r, Jpg) && r[..|r| - |Jpg|] == url[..|url| - ExtLength(url)]
    ensures !IsVideoName(url) ==> r == url
  {
    match MatchVideoExt(url, 0)
    case None => url
    case Some(p) =>
      var r := url[..p] + Jpg;
      assert r[|r| - |Jpg|..] == Jpg;
      r
  }

  /** `getVideoThumbnail`. */
  function Thumbnail(url: string): string {
    SwapExtension(InsertTransformation(url))
  }

  /** `.jpg` is no video extension. */
  lemma JpgIsNoVideoName(s: string)
    requires EndsWith(s, Jpg)
    ensures !IsVideoName(s)
  {
    LastCharOfSuffix(s, Jpg);
    if EndsWith(s, Webm) {
      LastCharOfSuffix(s, Webm);
      assert false;
    }
    if EndsWith(s, Mp4) {
      LastCharOfSuffix(s, Mp4);
      assert false;
    }
  }

  /** Swapping the extension twice is swapping it once. */
  lemma SwapExtensionIdempotent(url: string)
    ensures SwapExtension(SwapExtension(url)) == SwapExtension(url)
  {
    if IsVideoName(url) {
      JpgIsNoVideoName(SwapExtension(url));
    }
  }

  /** A stem followed by a video extension gets the stem followed by `.jpg`. */
  lemma SwapVideoExtension(stem: string, ext: string)
    requires ext == Webm || ext == Mp4
    ensures SwapExtension(stem + ext) == stem + Jpg
  {
    var s := stem + ext;
    assert s[|s| - |ext|..] == ext;
    assert s[..|s| - |ext|] == stem;
    if ext == Mp4 && EndsWith(s, Webm) {
      LastCharOfSuffix(s, Mp4);
      LastCharOfSuffix(s, Webm);
      assert false;
    }
    assert ExtLength(s) == |ext|;
    var r := SwapExtension(s);
    assert r == r[..|r| - |Jpg|] + r[|r| - |Jpg|..];
  }

  /** The first step keeps the URL's ending: neither `.webm` nor `.mp4`
      contains a `/`, and both `/upload/` and the inserted text end with one. */
  lemma InsertKeepsVideoName(url: string)
    ensures IsVideoName(InsertTransformation(url)) <==> IsVideoName(url)
    ensures IsVideoName(url) ==> ExtLength(InsertTransformation(url)) == ExtLength(url)
  {
    if Contains(url, Upload) {
      var r := InsertTransformation(url);
      var i := FirstUpload(url);
      var head := url[..i + |Upload|];
      var tail := url[i + |Upload|..];
      assert url == head + tail;
      assert head[|head| - 1] == Upload[|Upload| - 1] == '/';
      var longer := head + Transformation;
      assert r == longer + tail;
      assert longer[|longer| - 1] == Transformation[|Transformation| - 1] == '/';
      EndsWithPastSeparator(head, tail, Webm);
      EndsWithPastSeparator(head, tail, Mp4);
      EndsWithPastSeparator(longer, tail, Webm);
      EndsWithPastSeparator(longer, tail, Mp4);
    }
  }

  /** A video URL gets a `.jpg` thumbnail. */
  lemma ThumbnailOfVideoIsJpg(url: string)
    requires IsVideoName(url)
    ensures EndsWith(Thumbnail(url), Jpg)
  {
    InsertKeepsVideoName(url);
  }

  /** A URL with neither `/upload/` nor a trailing video extension is returned
      unchanged; an extension that is not at the very end is no match. */
  lemma ThumbnailOfOtherUrl(url: string)
    requires !Contains(url, Upload) && !IsVideoName(url)
    ensures Thumbnail(url) == url
  {
  }

  /** The transformation lands right after the first `/upload/`. */
  lemma InsertAfterFirstUpload(host: string, rest: string)
    requires forall j: nat :: j < |host| ==> !StartsAt(host + Upload + rest, j, Upload)
    ensures InsertTransformation(host + Upload + rest) == host + Upload + Transformation + rest
  {
    var url := host + Upload + rest;
    assert StartsAt(url, |host|, Upload) by {
      assert url[|host|..|host| + |Upload|] == Upload;
    }
    var i := |host|;
    assert FirstAt(url, Upload, i);
    InsertAfterFirstAt(url, Upload, Transformation, i);
    assert url[..i + |Upload|] == host + Upload;
    assert url[i + |Upload|..] == rest;
  }

  /** The rewrite in full, for a URL whose first `/upload/` follows `host`
      (the documented example has `host` = `https://res.cloudinary.com/jiang/video`,
      `path` = `v1234/video`, `ext` = `.webm`): the transformation follows
      `/upload/`, the path is kept and the extension becomes `.jpg`. */
  lemma ThumbnailShape(host: string, path: string, ext: string)
    requires ext == Webm || ext == Mp4
    requires forall j: nat :: j < |host| ==> !StartsAt(host + Upload + (path + ext), j, Upload)
    ensures Thumbnail(host + Upload + (path + ext)) == host + Upload + Transformation + path + Jpg
  {
    InsertAfterFirstUpload(host, path + ext);
    var stem := host + Upload + Transformation + path;
    assert host + Upload + Transformation + (path + ext) == stem + ext;
    SwapVideoExtension(stem, ext);
  }

  /** The rewrite inserts the transformation on every call, so it is not
      idempotent on a URL that has `/upload/`. */
  lemma ThumbnailNotIdempotent(url: string)
    requires Contains(url, Upload)
    ensures Thumbnail(Thumbnail(url)) != Thumbnail(url)
    ensures |Thumbnail(Thumbnail(url))| >= |Thumbnail(url)| + |Transformation| - 1
  {
    var once := Thumbnail(url);
    var r := InsertTransformation(url);
    var i := FirstUpload(url);
    assert |r| == |url| + |Transformation|;
    SwapExtensionShrinksByOne(r);
    assert once[i..i + |Upload|] == Upload;
    assert StartsAt(once, i, Upload);
    var again := InsertTransformation(once);
    assert |again| == |once| + |Transformation|;
    SwapExtensionShrinksByOne(again);
  }

  /** The extension step changes the length by at most one. */
  lemma SwapExtensionShrinksByOne(url: string)
    ensures |url| - 1 <= |SwapExtension(url)| <= |url|
  {
    if IsVideoName(url) {
      var r := SwapExtension(url);
      assert |r| == |r[..|r| - |Jpg|]| + |Jpg|;
    }
  }
}

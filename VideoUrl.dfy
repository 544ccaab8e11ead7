/** getYouTubeVideoUrl: the watch-page link of a video, a fixed prefix
    followed by the video id. */
module VideoUrl {
  import opened Wrappers

  const WatchUrlPrefix := "https://www.youtube.com/watch?v="

  function GetYouTubeVideoUrl(videoId: string): (url: string)
    ensures |url| == |WatchUrlPrefix| + |videoId|
    ensures url[..|WatchUrlPrefix|] == WatchUrlPrefix
    ensures url[|WatchUrlPrefix|..] == videoId
  {
    WatchUrlPrefix + videoId
  }

  /** The video id of a watch-page link, the inverse of GetYouTubeVideoUrl. */
  function VideoIdFromUrl(url: string): (id: Option<string>)
  {
    if |WatchUrlPrefix| <= |url| && url[..|WatchUrlPrefix|] == WatchUrlPrefix
    then Some(url[|WatchUrlPrefix|..])
    else None
  }

  /** A link names exactly one id, and every watch-page link is the link of
      the id it carries. */
  lemma VideoIdFromUrlIff(url: string, videoId: string)
    ensures VideoIdFromUrl(url) == Some(videoId) <==> url == GetYouTubeVideoUrl(videoId)
  {
    if VideoIdFromUrl(url) == Some(videoId) {
      assert url == url[..|WatchUrlPrefix|] + url[|WatchUrlPrefix|..];
    }
  }

  /** Distinct ids give distinct links. */
  lemma GetYouTubeVideoUrlInjective(a: string, b: string)
    ensures GetYouTubeVideoUrl(a) == GetYouTubeVideoUrl(b) ==> a == b
  {
  }

  lemma GetYouTubeVideoUrlExample()
    ensures GetYouTubeVideoUrl("abc123") == "https://www.youtube.com/watch?v=abc123"
  {
  }
}

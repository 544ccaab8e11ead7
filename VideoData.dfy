/** The static list of bird-nest live streams that the gallery shows. */
module VideoData {
  import opened Wrappers
  import opened Decimal
  import opened Calendar
  import opened YouTubeTypes
  import opened ViewCount
  import opened VideoUrl

  const BirdNestVideos: seq<YouTubeVideo> := [
    YouTubeVideo(
      "B4-L2nfGcuE",
      "Big Bear Bald Eagle Live Nest - Cam 1",
      "FOBBV CAM",
      Some(15437),
      Some("2021-09-16"),
      "https://img.youtube.com/vi/B4-L2nfGcuE/maxresdefault.jpg",
      Some("America/Los_Angeles"),
      Some("-07:00"))
  ]

  /** The one card of the list: its counts and dates are well formed, and
      its labels are the ones the formatters give. */
  lemma BirdNestCard(v: YouTubeVideo)
    requires v == BirdNestVideos[0]
    ensures |BirdNestVideos| == 1
    ensures v.HasTimezonePair()
    ensures v.viewCount.Some? && v.viewCount.value >= 0
    ensures v.uploadDate.Some? && ParseDate(v.uploadDate.value) == Some(Date(2021, 9, 16))
    ensures FormatViewCount(v.viewCount.value) == "15.4K views"
    ensures VideoIdFromUrl(GetYouTubeVideoUrl(v.id)) == Some(v.id)
  {
    ParseDateDigits('2', '0', '2', '1', '0', '9', '1', '6');
    assert Tenths(15437, Thousand) == 154;
    assert NatToString(15) == "15";
    VideoIdFromUrlIff(GetYouTubeVideoUrl(v.id), v.id);
  }
}

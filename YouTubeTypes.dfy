/** The record that describes one video card. Optional fields may be
    absent; a view count is a JavaScript number, taken here as an integer. */
module YouTubeTypes {
  import opened Wrappers

  datatype YouTubeVideo = YouTubeVideo(
    id: string,
    title: string,
    channelName: string,
    viewCount: Option<int>,
    uploadDate: Option<string>,
    thumbnailUrl: string,
    timezone: Option<string>,
    timezoneOffset: Option<string>)
  {
    /** The filming location's time zone is given as a pair or not at all. */
    predicate HasTimezonePair() {
      timezone.Some? == timezoneOffset.Some?
    }
  }
}

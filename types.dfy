/** The records the generator passes between its stages. */
module Types {
  import opened Strings
  import opened Calendar

  /** One post: its output file name, title, date and the raw text of its source file. */
  datatype BlogPost = BlogPost(filename: Bytes, title: Bytes, timestamp: Timestamp, content: Bytes)

  /** The feed settings: channel title, site link, description, language and the feed's file name. */
  datatype RSSConfig = RSSConfig(title: Bytes, link: Bytes, description: Bytes, language: Bytes, feedPath: Bytes)
}

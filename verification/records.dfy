/** The single stored entity, shared by the extraction and the report. */
module Records {

  /** One row of the `memes` table: the display date, the image's file name
      inside the meme directory, and the like count. */
  datatype MemeRecord = MemeRecord(date: string, localFile: string, likesCount: int)
}

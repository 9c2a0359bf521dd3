/**
 * Reading the date a photograph was taken from its EXIF block. Opening the
 * image and decoding the block (Pillow's `Image.open(...)._getexif()`) is an
 * oracle: the model receives its outcome as an `ExifRead` value and
 * specifies what the organizers do with it.
 */
module Exif {
  import opened Wrappers
  import opened Dates

  /** DateTimeOriginal, tag 0x9003 of the Exif standard (JEITA CP-3451, section 4.6.5). */
  const DateTimeOriginalTag: int := 36867

  /**
   * The outcome of opening an image and asking for its EXIF tags: an
   * exception (not an image, unreadable), no EXIF block at all (`None`), or
   * the decoded tags (an empty block is the empty map).
   */
  datatype ExifRead = Unreadable | NoExif | Tags(tags: map<int, string>)

  /** A Python call that either raises or returns a value. */
  datatype Attempt<T> = Raised | Returned(value: T)

  /** The tag holds text that is present and non-empty (Python's truthiness of `date_taken`). */
  predicate HasDateText(r: ExifRead) {
    r.Tags? && DateTimeOriginalTag in r.tags && r.tags[DateTimeOriginalTag] != ""
  }

  /**
   * `_get_image_creation_date`: the DateTimeOriginal tag parsed as
   * `%Y:%m:%d %H:%M:%S`; no block or no tag gives `None`, and an unreadable
   * image or a malformed stamp raises.
   */
  function ImageCreationDate(read: ExifRead): (r: Attempt<Option<DateTime>>)
    ensures r.Raised? <==>
              read.Unreadable? || (HasDateText(read) && ParseExifDateTime(read.tags[DateTimeOriginalTag]).None?)
    ensures r == Returned(None) <==> !read.Unreadable? && !HasDateText(read)
    ensures r.Returned? && r.value.Some? ==>
              HasDateText(read) && Some(r.value.value) == ParseExifDateTime(read.tags[DateTimeOriginalTag])
  {
    match read
    case Unreadable => Raised
    case NoExif => Returned(None)
    case Tags(tags) =>
      if |tags| == 0 || DateTimeOriginalTag !in tags then Returned(None)
      else if tags[DateTimeOriginalTag] == "" then Returned(None)
      else
        match ParseExifDateTime(tags[DateTimeOriginalTag])
        case None => Raised
        case Some(t) => Returned(Some(t))
  }

  /** `with _suppress_and_log(Exception)`: any exception inside the block leaves the result at `None`. */
  function SuppressAndLog<T>(a: Attempt<Option<T>>): (r: Option<T>)
    ensures a.Raised? ==> r.None?
    ensures a.Returned? ==> r == a.value
  {
    match a
    case Raised => None
    case Returned(v) => v
  }

  /** The metadata date of `organize_images`: the creation date with every exception suppressed. */
  function MetadataDate(read: ExifRead): (r: Option<DateTime>)
    ensures r.Some? <==> HasDateText(read) && ParseExifDateTime(read.tags[DateTimeOriginalTag]).Some?
    ensures r.Some? ==> r == ParseExifDateTime(read.tags[DateTimeOriginalTag]) && IsValidDateTime(r.value)
  {
    SuppressAndLog(ImageCreationDate(read))
  }

  /** A well-formed stamp in the tag is read back exactly: the EXIF writer's text round-trips. */
  lemma StampReadBack(t: DateTime, tags: map<int, string>)
    requires IsValidDateTime(t) && t.date.year >= 1000
    requires DateTimeOriginalTag in tags && tags[DateTimeOriginalTag] == FormatExifDateTime(t)
    ensures MetadataDate(Tags(tags)) == Some(t)
  {
    ExifDateTimeRoundTrip(t);
  }
}

/** Values shared by every part of the model: optional values, the errors the
    package raises (each Python ValueError/KeyError becomes one constructor),
    the result type that carries them, href templates, the two collection ids
    and media types. */
module Base {

  datatype Option<+T> = None | Some(value: T)

  /** One piece of an href format string: literal text, or a `{name}` field. */
  datatype Token = Lit(text: string) | Field(name: string)

  /** An href format string, already split into its pieces. */
  type Template = seq<Token>

  /** The `CollectionIDs` enum: the annual and the change collection. */
  datatype CollectionId = Annual | Change {
    function Value(): string {
      match this
      case Annual => "glad-glclu2020"
      case Change => "glad-glclu2020-change"
    }
  }

  /** A media type written out; an empty one would be falsy in Python. */
  type MimeText = s: string | s != "" witness "application/octet-stream"

  /** Media types of the data asset. Every media type has a non-empty value,
      so in Python every one of them is truthy. */
  datatype MediaType = Cog | GeoTiff | Other(mime: MimeText)

  datatype Error =
    /** `validate_href_format`: the required fields absent from the template, sorted. */
    | MissingRequiredParameters(missing: seq<string>)
    /** `parse_href`: the href does not match the template. */
    | HrefNotParsed(href: string, format: Template)
    /** `parsed.named[name]` on a template that has no such field (a KeyError). */
    | MissingNamedField(name: string)
    /** The year field matches neither the annual nor the change sub-format. */
    | YearNotParsed(value: string)
    /** `datetime(year=...)` with a year outside 1..9999. */
    | YearOutOfRange(year: int)
    /** `CollectionDefinition.create_item`: `parse_href` gave nothing. */
    | UnableToParseHref(href: string)
    /** `build_collection` with neither a media type nor a sample href. */
    | MediaTypeRequired
    /** Media-type sniffing could not identify the asset at this href. */
    | MediaTypeUnidentified(href: string)
    /** `int(text, base)` on text that is not an integer literal. */
    | InvalidIntLiteral(text: string, base: int)
    /** `get_config` on an id the registry does not hold. */
    | UnknownCollection(id: CollectionId)
    /** `stac.create_item` when no configuration accepted the href. */
    | NoMatchingCollection(href: string)

  /** Success or one of the errors above; usable with `:-`. */
  datatype Result<+T> = Ok(value: T) | Err(error: Error) {
    predicate IsFailure() { Err? }
    function PropagateFailure<U>(): Result<U>
      requires Err?
    {
      Err(error)
    }
    function Extract(): T
      requires Ok?
    {
      value
    }
  }
}

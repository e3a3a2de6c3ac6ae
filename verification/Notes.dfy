/** Notes and their typed frontmatter values. */
module Notes {
  /** An `f64`, infinities and NaN included.  `Finite` carries the exact value. */
  datatype F64 = NaN | NegInf | Finite(r: real) | PosInf

  /** A calendar date. */
  datatype Date = Date(year: int, month: nat, day: nat)

  /** A point in time in UTC: the date, the second of the day, and the
      nanoseconds.  A leap second is second 59 with a billion nanoseconds or more. */
  datatype Instant = Instant(date: Date, second: nat, nanos: nat)

  /** A float also carries the text it prints as, which the value alone does
      not give (negative zero). */
  datatype Value =
    | Null
    | Bool(b: bool)
    | Int(i: int)
    | Float(f: F64, text: string)
    | Str(s: string)
    | DateOnly(d: Date)
    | DateTime(at: Instant)
    | Sequence(items: seq<Value>)
    | Mapping(fields: map<string, Value>)

  type Frontmatter = map<string, Value>

  datatype Note = Note(
    path: string, frontmatter: Frontmatter, body: string, rawBytes: string,
    lastModified: int, etag: string, size: nat)

  /** Everything a readable file determines but its path.  A frontmatter that
      is not a mapping is read as an empty one and warned about. */
  datatype Content = Content(
    frontmatter: Frontmatter, body: string, rawBytes: string,
    lastModified: int, etag: string, size: nat, notMapping: bool)

  function NoteAt(path: string, c: Content): Note {
    Note(path, c.frontmatter, c.body, c.rawBytes, c.lastModified, c.etag, c.size)
  }
}

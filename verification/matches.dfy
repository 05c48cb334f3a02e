/** Match extensions and markers. */
module Matches {
  /**
   * A match extension: a generic name/option/value match, or a comment match
   * carrying free text.
   */
  datatype Match =
    | Generic(name: string, option: string, value: string, negated: bool)
    | Comment(text: string, negated: bool)
  {
    function Name(): string {
      if Generic? then name else "comment"
    }

    function Option(): string {
      if Generic? then option else "comment"
    }

    function Value(): string {
      if Generic? then value else text
    }

    function Negated(): bool {
      negated
    }
  }

  /** A name/value tag embedded in a comment as `name:value`. */
  datatype Marker = Marker(name: string, value: string) {
    function String(): string {
      name + ":" + value
    }
  }
}

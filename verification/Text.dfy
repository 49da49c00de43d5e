/** Bytes and characters as the source measures them. */
module Text {

  type Byte = b: int | 0 <= b < 256

  function Utf8Size(c: char): nat {
    if c as int < 0x80 then 1 else if c as int < 0x800 then 2 else if c as int < 0x1_0000 then 3 else 4
  }

  /** The length of a string in bytes. */
  function Utf8Length(s: string): nat {
    if s == "" then 0 else Utf8Length(s[..|s| - 1]) + Utf8Size(s[|s| - 1])
  }

  predicate IsControl(c: char) {
    c as int < 0x20 || 0x7F <= c as int < 0xA0
  }
}

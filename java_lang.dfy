/** The few Java value types the evaluator works with, written out explicitly:
    a Java `char` is a UTF-16 code unit, a `String` is a sequence of them,
    `int` and `byte` are two's-complement integers of fixed width, and a
    reference that may be `null` is an `Option`. */
module JavaLang {

  datatype Option<+T> = None | Some(value: T)

  /** A Java `char`: one UTF-16 code unit. */
  newtype Char16 = x: int | 0 <= x < 0x1_0000

  /** A Java `String` (non-null). `String.length()` counts code units. */
  type JString = seq<Char16>

  /** A Java `byte`, signed. */
  newtype Int8 = x: int | -0x80 <= x < 0x80

  /** A Java `int`. */
  newtype Int32 = x: int | -0x8000_0000 <= x < 0x8000_0000

  const INT_MAX: int := 0x7fff_ffff

  const SPACE: Char16 := 0x20

  /** The UTF-16 encoding of one Unicode scalar value: one code unit in the
      Basic Multilingual Plane, a surrogate pair above it. */
  function Utf16Char(c: char): (r: seq<Char16>)
    ensures 1 <= |r| <= 2
    ensures |r| == 1 <==> c as int < 0x1_0000
  {
    var v := c as int;
    if v < 0x1_0000 then [v as Char16]
    else
      var w := v - 0x1_0000;
      [(0xD800 + w / 0x400) as Char16, (0xDC00 + w % 0x400) as Char16]
  }

  function Concat(parts: seq<JString>): JString
  {
    if parts == [] then [] else parts[0] + Concat(parts[1..])
  }

  /** The Java `String` that a source-code literal denotes: the encodings of
      its characters, one after the other. */
  function Utf16(s: string): (r: JString)
  {
    Concat(seq(|s|, i requires 0 <= i < |s| => Utf16Char(s[i])))
  }
}

/**
 * A `std::ostream` as the programs use it: the text written so far and the
 * format flags that choose the base of integer output.
 */
module Streams {

  import GapInt
  import Numerals

  class OStream {
    var text: string
    var flags: GapInt.FmtFlags

    constructor (f: GapInt.FmtFlags)
      ensures text == [] && flags == f
    {
      text := [];
      flags := f;
    }

    /** `os << s` for a string or a character. */
    method Write(s: string)
      modifies this
      ensures text == old(text) + s && flags == old(flags)
    {
      text := text + s;
    }

    /**
     * `os << i` for a `Gap::Int`: appends the numeral in the base the flags
     * select, which is what `GapInt.WriteInt` describes.
     */
    method WriteInt(i: int)
      modifies this
      ensures text == old(text) + Numerals.Render(i, GapInt.StreamBase(flags)) && flags == old(flags)
    {
      text := GapInt.WriteInt(text, flags, i);
    }
  }
}

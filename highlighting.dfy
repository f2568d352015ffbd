/** The highlight classification of a character and the colours it is drawn with. */
module Highlighting {
  import Wrappers

  /** One colour channel, as termion's `u8`. */
  newtype Byte = x: int | 0 <= x < 256

  /** termion's `color::Rgb`. */
  datatype Rgb = Rgb(red: Byte, green: Byte, blue: Byte)

  datatype Type = None | Number | SearchMatch {

    /** Background colour: only a search match is drawn on a coloured background. */
    function ToBgColor(): (c: Wrappers.Option<Rgb>)
      ensures c.Some? <==> this == SearchMatch
      ensures this == SearchMatch ==> c.value == Rgb(255, 255, 0)
    {
      match this
      case None => Wrappers.None
      case Number => Wrappers.None
      case SearchMatch => Wrappers.Some(Rgb(255, 255, 0))
    }

    /** Foreground colour: every classification but `None` has one. */
    function ToFgColor(): (c: Wrappers.Option<Rgb>)
      ensures c.Some? <==> this != None
      ensures this == Number ==> c.value == Rgb(232, 165, 165)
      ensures this == SearchMatch ==> c.value == Rgb(0, 0, 0)
    {
      match this
      case None => Wrappers.None
      case Number => Wrappers.Some(Rgb(232, 165, 165))
      case SearchMatch => Wrappers.Some(Rgb(0, 0, 0))
    }
  }

  /** A search match stands out: its foreground and background differ, and no other class has a background. */
  lemma SearchMatchIsDistinguishable(t: Type)
    ensures t.ToBgColor().Some? ==> t.ToFgColor().Some? && t.ToFgColor().value != t.ToBgColor().value
  {
  }
}

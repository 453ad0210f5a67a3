/**
 * The closed set of highlight tags a character can carry and the colour
 * each tag is drawn in.
 */
module Highlighting {
  import opened Wrappers

  /** One tag per rendered character. */
  datatype Type =
    | None
    | Number
    | String
    | Character
    | Comment
    | PrimaryKeywords
    | SecondaryKeywords
    | Match

  type Byte = x: int | 0 <= x < 256

  /** The terminal colours the editor uses; `Reset` returns to the default colour. */
  datatype Color =
    | Rgb(r: Byte, g: Byte, b: Byte)
    | Green
    | Yellow
    | Cyan
    | White
    | Reset

  /** The colour a tag is drawn in. Literal-like tags get true colours, the rest named ones. */
  function ToColour(t: Type): (c: Color)
    ensures c != Reset
    ensures c.Rgb? <==> t in {Number, String, Character, Comment}
    ensures t == Type.None <==> c == White
    ensures t == Match <==> c == Cyan
    ensures t == PrimaryKeywords <==> c == Green
    ensures t == SecondaryKeywords <==> c == Yellow
  {
    match t
    case Number => Rgb(244, 162, 97)
    case String => Rgb(233, 237, 201)
    case Character => Rgb(255, 200, 221)
    case Comment => Rgb(133, 153, 0)
    case PrimaryKeywords => Green
    case SecondaryKeywords => Yellow
    case Match => Cyan
    case None => White
  }

  /** Reads a colour back as the tag it stands for, if any tag is drawn in it. */
  function FromColour(c: Color): Option<Type>
  {
    match c
    case Rgb(r, g, b) =>
      if (r, g, b) == (244, 162, 97) then Some(Number)
      else if (r, g, b) == (233, 237, 201) then Some(String)
      else if (r, g, b) == (255, 200, 221) then Some(Character)
      else if (r, g, b) == (133, 153, 0) then Some(Comment)
      else Option.None
    case Green => Some(PrimaryKeywords)
    case Yellow => Some(SecondaryKeywords)
    case Cyan => Some(Match)
    case White => Some(Type.None)
    case Reset => Option.None
  }

  /** `FromColour` undoes `ToColour`, so no two tags share a colour. */
  lemma ToColourRoundTrip(t: Type)
    ensures FromColour(ToColour(t)) == Some(t)
  {
  }

  lemma ToColourInjective(s: Type, t: Type)
    ensures ToColour(s) == ToColour(t) ==> s == t
  {
    ToColourRoundTrip(s);
    ToColourRoundTrip(t);
  }
}

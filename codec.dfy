// The two lookup tables of the game: `key_value`, which turns a typed key
// into an internal colour code, and `color_code`, which turns an internal
// colour code into the VGA palette index the screen is filled with.
module Codec {
  import opened CTypes

  // Internal colour codes; FAIL doubles as the empty slot of the sequence buffer
  const FAIL: byte := 0
  const BLUE: byte := 1
  const GREEN: byte := 2
  const RED: byte := 3
  const YELLOW: byte := 4

  // VGA palette indices (mode 13h default palette)
  const COLOR_BLANK: byte := 0
  const COLOR_BLUE: byte := 1
  const COLOR_GREEN: byte := 2
  const COLOR_RED: byte := 12
  const COLOR_YELLOW: byte := 14

  /** Every index the game ever fills the screen with */
  const Palette: set<byte> := {COLOR_BLANK, COLOR_BLUE, COLOR_GREEN, COLOR_RED, COLOR_YELLOW}

  predicate IsColour(code: byte) {
    BLUE <= code <= YELLOW
  }

  /** `key_value`: the internal colour code of a key, FAIL for a key that
      names no colour. Each colour has exactly two keys. */
  function KeyValue(key: byte): (code: byte)
    ensures code == FAIL || IsColour(code)
    ensures code == BLUE <==> key == 66 || key == 98
    ensures code == GREEN <==> key == 71 || key == 103
    ensures code == RED <==> key == 12 || key == 114
    ensures code == YELLOW <==> key == 89 || key == 121
  {
    if key == 66 || key == 98 then BLUE
    else if key == 71 || key == 103 then GREEN
    else if key == 12 || key == 114 then RED
    else if key == 89 || key == 121 then YELLOW
    else FAIL
  }

  /** The keys that decode to `code` */
  function KeysFor(code: byte): set<byte> {
    set key: byte | KeyValue(key) == code
  }

  /** Inverse image of the key table: each colour is typed by exactly two
      keys, so 8 of the 256 key bytes name a colour and the rest fail. */
  lemma KeysForColours()
    ensures KeysFor(BLUE) == {66, 98}
    ensures KeysFor(GREEN) == {71, 103}
    ensures KeysFor(RED) == {12, 114}
    ensures KeysFor(YELLOW) == {89, 121}
    ensures forall code: byte :: IsColour(code) ==> |KeysFor(code)| == 2
  {
    assert forall code: byte :: IsColour(code) ==> code in {BLUE, GREEN, RED, YELLOW};
  }

  /** The letters the game tells the player to type ("B for Blue", ...),
      upper and lower case, against the key table: B, G and Y work in both
      cases, red is typed as `r` or as byte 12 (Ctrl-L), and `R` fails. */
  lemma LetterKeys()
    ensures KeyValue('B' as byte) == BLUE && KeyValue('b' as byte) == BLUE
    ensures KeyValue('G' as byte) == GREEN && KeyValue('g' as byte) == GREEN
    ensures KeyValue('Y' as byte) == YELLOW && KeyValue('y' as byte) == YELLOW
    ensures KeyValue('r' as byte) == RED && KeyValue('R' as byte) == FAIL
  {
  }

  /** `color_code`: the palette index shown for an internal colour code;
      anything that is not a colour blanks the screen. */
  function ColorCode(code: byte): (colour: byte)
    ensures colour in Palette
    ensures colour == COLOR_BLANK <==> !IsColour(code)
    ensures colour == COLOR_BLUE <==> code == BLUE
    ensures colour == COLOR_GREEN <==> code == GREEN
    ensures colour == COLOR_RED <==> code == RED
    ensures colour == COLOR_YELLOW <==> code == YELLOW
  {
    match code
    case 1 => COLOR_BLUE
    case 2 => COLOR_GREEN
    case 3 => COLOR_RED
    case 4 => COLOR_YELLOW
    case _ => COLOR_BLANK
  }

  /** Distinct colours are shown as distinct palette indices, so what the
      screen shows identifies the colour code. */
  lemma ColorCodeInjective(a: byte, b: byte)
    requires IsColour(a) && IsColour(b)
    requires ColorCode(a) == ColorCode(b)
    ensures a == b
  {
  }

  /** Whatever key is typed, decoding it and looking up its colour lands in
      the palette, and blank exactly for the keys that name no colour. */
  lemma KeyLightsPalette(key: byte)
    ensures ColorCode(KeyValue(key)) in Palette
    ensures ColorCode(KeyValue(key)) == COLOR_BLANK <==> KeyValue(key) == FAIL
  {
  }
}

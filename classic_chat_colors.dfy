// src/classic/api/ChatColors.java: the sixteen "&" colour codes of the chat
// protocol and the prefix tests over them.

module ClassicChatColors {
  import opened Wrappers
  import opened JavaText

  datatype ChatColor =
    | BLACK | DARK_BLUE | DARK_GREEN | DARK_AQUA | DARK_RED | PURPLE | GOLD | GRAY
    | DARK_GRAY | BLUE | GREEN | AQUA | RED | LIGHT_PURPLE | YELLOW | WHITE

  /** The digit after the '&' of each colour's code. */
  function Digit(c: ChatColor): char
  {
    match c
    case BLACK => '0'        case DARK_BLUE => '1'   case DARK_GREEN => '2'
    case DARK_AQUA => '3'    case DARK_RED => '4'    case PURPLE => '5'
    case GOLD => '6'         case GRAY => '7'        case DARK_GRAY => '8'
    case BLUE => '9'         case GREEN => 'a'       case AQUA => 'b'
    case RED => 'c'          case LIGHT_PURPLE => 'd' case YELLOW => 'e'
    case WHITE => 'f'
  }

  /** `getCode` and `toString`: '&' followed by the colour's digit. */
  function Code(c: ChatColor): (r: string)
    ensures |r| == 2 && r[0] == '&' && r[1] == Digit(c)
  {
    ['&', Digit(c)]
  }

  /** The characters allowed after '&': lower-case hexadecimal digits. */
  predicate IsCodeDigit(ch: char) {
    '0' <= ch <= '9' || 'a' <= ch <= 'f'
  }

  /** `values()`, in declaration order. */
  const Values: seq<ChatColor> := [BLACK, DARK_BLUE, DARK_GREEN, DARK_AQUA, DARK_RED, PURPLE,
    GOLD, GRAY, DARK_GRAY, BLUE, GREEN, AQUA, RED, LIGHT_PURPLE, YELLOW, WHITE]

  /** The loop both lookups run: the first colour in `cs` whose code starts `text`. */
  function FirstPrefix(text: string, cs: seq<ChatColor>): (r: Option<ChatColor>)
    ensures r.Some? ==> r.value in cs && StartsWith(text, Code(r.value))
    ensures r.None? <==> forall i :: 0 <= i < |cs| ==> !StartsWith(text, Code(cs[i]))
  {
    if cs == [] then None
    else if StartsWith(text, Code(cs[0])) then Some(cs[0])
    else FirstPrefix(text, cs[1..])
  }

  /** `startsWithColor`; a null text is modelled as the empty one. */
  predicate StartsWithColor(text: string)
  {
    |text| >= 2 && FirstPrefix(text, Values).Some?
  }

  /** `getColor`: None stands for null. */
  function GetColor(text: string): (r: Option<ChatColor>)
    ensures r.Some? ==> StartsWith(text, Code(r.value))
  {
    if |text| < 2 then None else FirstPrefix(text, Values)
  }

  /** Every colour is among `values()` and digits are exactly the lower-case hex
      digits, one colour per digit. */
  lemma CodesExact(c: ChatColor, d: ChatColor)
    ensures c in Values
    ensures IsCodeDigit(Digit(c))
    ensures Digit(c) == Digit(d) ==> c == d
  {
  }

  /** The colour whose code digit is `ch`. */
  function ColorOf(ch: char): (c: ChatColor)
    requires IsCodeDigit(ch)
    ensures Digit(c) == ch
  {
    if ch == '0' then BLACK else if ch == '1' then DARK_BLUE
    else if ch == '2' then DARK_GREEN else if ch == '3' then DARK_AQUA
    else if ch == '4' then DARK_RED else if ch == '5' then PURPLE
    else if ch == '6' then GOLD else if ch == '7' then GRAY
    else if ch == '8' then DARK_GRAY else if ch == '9' then BLUE
    else if ch == 'a' then GREEN else if ch == 'b' then AQUA
    else if ch == 'c' then RED else if ch == 'd' then LIGHT_PURPLE
    else if ch == 'e' then YELLOW else WHITE
  }

  /** A text starts with a colour exactly when its first two characters are '&'
      and a lower-case hex digit; "&A" is not a code. */
  lemma StartsWithColorExact(text: string)
    ensures StartsWithColor(text) <==> |text| >= 2 && text[0] == '&' && IsCodeDigit(text[1])
  {
    if StartsWithColor(text) {
      var v := FirstPrefix(text, Values).value;
      CodesExact(v, v);
      assert text[..2] == Code(v);
    }
    if |text| >= 2 && text[0] == '&' && IsCodeDigit(text[1]) {
      var c := ColorOf(text[1]);
      assert text[..2] == Code(c);
      CodesExact(c, c);
      var i :| 0 <= i < |Values| && Values[i] == c;
      assert StartsWith(text, Code(Values[i]));
    }
  }

  /** `getColor` finds a colour exactly when `startsWithColor` holds, and the
      colour it finds is the one the text starts with. */
  lemma GetColorAgrees(text: string)
    ensures GetColor(text).Some? <==> StartsWithColor(text)
    ensures GetColor(text).Some? ==> Digit(GetColor(text).value) == text[1]
  {
  }
}

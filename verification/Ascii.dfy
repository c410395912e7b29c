/** The control characters and the blank, as the terminal, the line editor and the splitter see them. */
module Ascii {
  import opened Words

  const BACKSPACE: Byte := 8
  const NEWLINE: Byte := 10
  const RETURN: Byte := 13
  const SPACE: Byte := 32
}

/** The Unicode blocks that `Character.UnicodeBlock.of` reports and symbolParsing in
    Komoran.java tests, with their ranges from the Unicode standard's Blocks.txt. */
module UnicodeBlocks {

  datatype Block =
    | BasicLatin
    | HangulJamo | HangulCompatibilityJamo | HangulJamoExtendedA | HangulJamoExtendedB
    | HangulSyllables
    | Katakana | KatakanaPhoneticExtensions
    | CjkCompatibility | CjkUnifiedIdeographs | CjkUnifiedIdeographsExtensionA
    | CjkUnifiedIdeographsExtensionB | CjkCompatibilityIdeographs
    | OtherBlock

  function BlockOf(c: char): Block {
    var n := c as int;
    if n <= 0x7F then BasicLatin
    else if 0x1100 <= n <= 0x11FF then HangulJamo
    else if 0x3130 <= n <= 0x318F then HangulCompatibilityJamo
    else if 0xA960 <= n <= 0xA97F then HangulJamoExtendedA
    else if 0xD7B0 <= n <= 0xD7FF then HangulJamoExtendedB
    else if 0xAC00 <= n <= 0xD7AF then HangulSyllables
    else if 0x30A0 <= n <= 0x30FF then Katakana
    else if 0x31F0 <= n <= 0x31FF then KatakanaPhoneticExtensions
    else if 0x3300 <= n <= 0x33FF then CjkCompatibility
    else if 0x4E00 <= n <= 0x9FFF then CjkUnifiedIdeographs
    else if 0x3400 <= n <= 0x4DBF then CjkUnifiedIdeographsExtensionA
    else if 0x20000 <= n <= 0x2A6DF then CjkUnifiedIdeographsExtensionB
    else if 0xF900 <= n <= 0xFAFF then CjkCompatibilityIdeographs
    else OtherBlock
  }

  predicate IsHangulBlock(b: Block) {
    b == HangulCompatibilityJamo || b == HangulJamo || b == HangulJamoExtendedA
    || b == HangulJamoExtendedB || b == HangulSyllables
  }

  predicate IsKatakanaBlock(b: Block) {
    b == Katakana || b == KatakanaPhoneticExtensions
  }

  predicate IsCjkBlock(b: Block) {
    b == CjkCompatibility || b == CjkUnifiedIdeographs || b == CjkUnifiedIdeographsExtensionA
    || b == CjkUnifiedIdeographsExtensionB || b == CjkCompatibilityIdeographs
  }
}

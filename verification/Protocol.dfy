/** The command words of the text protocol, as bytes. */
module Protocol {
  import opened Words

  const REGISTER: seq<Byte> := [82, 69, 71, 73, 83, 84, 69, 82]
  const SUBSCRIBE: seq<Byte> := [83, 85, 66, 83, 67, 82, 73, 66, 69]
  const PUBLISH: seq<Byte> := [80, 85, 66, 76, 73, 83, 72]
  const FLUSH: seq<Byte> := [70, 76, 85, 83, 72]
  const REGACK: seq<Byte> := [82, 69, 71, 65, 67, 75]
  const SUBACK: seq<Byte> := [83, 85, 66, 65, 67, 75]
  const FLUSHED: seq<Byte> := [70, 76, 85, 83, 72, 69, 68]

  /** The bytes of an ASCII text. */
  function Ascii(s: string): seq<Byte>
    requires forall i :: 0 <= i < |s| ==> s[i] as int < 0x80
  {
    seq(|s|, i requires 0 <= i < |s| => s[i] as int)
  }

  /** The words, spelt out. */
  lemma Spelling()
    ensures REGISTER == Ascii("REGISTER") && SUBSCRIBE == Ascii("SUBSCRIBE")
    ensures PUBLISH == Ascii("PUBLISH") && FLUSH == Ascii("FLUSH")
    ensures REGACK == Ascii("REGACK") && SUBACK == Ascii("SUBACK") && FLUSHED == Ascii("FLUSHED")
  {
  }
}

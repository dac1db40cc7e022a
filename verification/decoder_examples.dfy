/** Worked inputs for the decoder, each with the report it yields. */
module DecoderExamples {
  import opened Wrappers
  import opened BitFields
  import opened IconBuffer
  import opened SampleStats
  import opened DataProcessor

  /** The RGB2 word 0x001020FF unpacks to blue 0x00, green 0x10 and red 0x20; the low byte 0xFF is dropped. */
  lemma ColourWordExample()
    ensures Blue(0x0010_20FF) == 0x00 && Green(0x0010_20FF) == 0x10 && Red(0x0010_20FF) == 0x20
    ensures Contribution(Colour, 0x0010_20FF) == Tally(0x30, 3)
  {
    RgbRoundTrip(0x00, 0x10, 0x20, 0xFF);
  }

  /** Mark words `[42, 0x40010000]` give counter 42, overtrigger count 1 and enable 1, whatever row 1 holds. */
  lemma MarkExample()
    ensures DecodeUnit(2, Unit("Ranger", SubComponent("Mark", "INT", 2, [[42, 0x4001_0000], [7, 7]])))
      == Success(MarkLine("Ranger", "Mark", 42, 1, 1))
  {
    MarkFlagsRoundTrip(0, 1, 0, 1, 0);
  }

  /** A flags word with every bit set, read as the C# int -1, has overtrigger count 255 and enable 1. */
  lemma MarkAllBitsSet()
    ensures Overtrig(AsInt32(0xFFFF_FFFF)) == 255 && Enable(AsInt32(0xFFFF_FFFF)) == 1
  {
    MarkFlagsRoundTrip(0xFFFF, 255, 63, 1, 1);
  }

  /** A Mark subcomponent one word wide cannot be read, and the decode of its buffer stops. */
  lemma NarrowMarkAborts()
    ensures Decode(Buffer("PROFILE", 1, [Component("Ranger", [SubComponent("Mark", "INT", 1, [[42]])])]))
      == Failure(MarkRowMissing("Ranger", "Mark"))
  {
    var b := Buffer("PROFILE", 1, [Component("Ranger", [SubComponent("Mark", "INT", 1, [[42]])])]);
    assert b.comps[..0] == [];
    assert Units(b.comps) == [Unit("Ranger", b.comps[0].subs[0])];
  }

  /** An image buffer yields the single notice, whatever its components hold. */
  lemma ImageExample()
    ensures Decode(Buffer("IMAGE", 1, [Component("Ranger", [SubComponent("Mark", "INT", 1, [[42]])])]))
      == Success([Notice("This is an image buffer.\n")])
  {
  }

  /** An unrecognised value type leaves nothing counted, so its mean is undefined. */
  lemma UnknownTypeHasNoMean()
    ensures DecodeUnit(1, Unit("Ranger", SubComponent("Scatter", "UNKNOWN", 2, [[3, 4]])))
      == Success(MeanLine("Ranger", "Scatter", Tally(0, 0)))
    ensures Mean(Tally(0, 0)).None?
  {
  }
}

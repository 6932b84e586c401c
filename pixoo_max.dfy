/**
 * The PixooMax command encoders. The class has no fields, so its members are
 * functions from their arguments to the bytes of one device message:
 *   01 | length: u16 LE | payload | checksum: u16 LE | 02
 * where length counts the payload and the checksum, and the checksum is the
 * 16-bit sum of the length bytes and the payload.
 */
module PixooMax {
  import opened Wrappers
  import opened ByteBuffers
  import Canvas

  const StartMarker: byte := 0x01
  const EndMarker: byte := 0x02

  /** Buffer.concat of the parts, in order. */
  function Concat(parts: seq<seq<byte>>): seq<byte>
  {
    if parts == [] then [] else Concat(parts[..|parts| - 1]) + parts[|parts| - 1]
  }

  /**
   * createMessage: concatenate the parts into the payload and wrap it. The
   * requires is the range writeUInt16LE accepts for the length field.
   */
  function CreateMessage(parts: seq<seq<byte>>): (message: seq<byte>)
    requires |Concat(parts)| + 2 < 65536
    ensures var n := |Concat(parts)|;
      && |message| == n + 6
      && message[0] == StartMarker && message[n + 5] == EndMarker
      && Value16(message[1], message[2]) == n + 2
      && message[3..n + 3] == Concat(parts)
      && Value16(message[n + 3], message[n + 4]) == Sum(message[1..n + 3]) % 65536
  {
    var payload := Concat(parts);
    var length := LE16([|payload| + 2]);
    var checksum := Checksum16(length + payload);
    EnvelopeLayout(length, payload, checksum);
    [StartMarker] + length + payload + checksum + [EndMarker]
  }

  /** Where the fields of an envelope sit, whatever they hold. */
  lemma EnvelopeLayout(length: seq<byte>, payload: seq<byte>, checksum: seq<byte>)
    requires |length| == 2 && |checksum| == 2
    ensures var message := [StartMarker] + length + payload + checksum + [EndMarker];
      var n := |payload|;
      && |message| == n + 6
      && message[0] == StartMarker && message[n + 5] == EndMarker
      && message[1] == length[0] && message[2] == length[1]
      && message[n + 3] == checksum[0] && message[n + 4] == checksum[1]
      && message[3..n + 3] == payload
      && message[1..n + 3] == length + payload
  {
  }

  /**
   * Reads one message: checks both markers, the length field and the
   * checksum, and yields the payload.
   */
  function ParseMessage(message: seq<byte>): (payload: Option<seq<byte>>)
    ensures payload.Some? ==> |payload.value| + 6 == |message|
  {
    var n := |message|;
    if n < 6 || message[0] != StartMarker || message[n - 1] != EndMarker then None
    else if Value16(message[1], message[2]) != n - 4 then None
    else if Value16(message[n - 3], message[n - 2]) != Sum(message[1..n - 3]) % 65536 then None
    else Some(message[3..n - 3])
  }

  /** Every message createMessage builds parses back to its payload. */
  lemma ParseCreateMessage(parts: seq<seq<byte>>)
    requires |Concat(parts)| + 2 < 65536
    ensures ParseMessage(CreateMessage(parts)) == Some(Concat(parts))
  {
  }

  /** Every message that parses is the one createMessage builds from its payload. */
  lemma CreateParseMessage(message: seq<byte>)
    requires ParseMessage(message).Some?
    ensures |ParseMessage(message).value| + 2 < 65536
    ensures CreateMessage([ParseMessage(message).value]) == message
  {
    var n := |message|;
    var payload := message[3..n - 3];
    assert ParseMessage(message) == Some(payload);
    assert Concat([payload]) == payload by {
      assert Concat([payload]) == Concat([]) + payload;
    }
    var length := message[1..3];
    var checksum := message[n - 3..n - 1];
    LE16Single(message[1], message[2]);
    LE16Single(message[n - 3], message[n - 2]);
    assert LE16([|payload| + 2]) == length;
    assert message[1..n - 3] == length + payload;
    assert Checksum16(length + payload) == checksum;
    SplitMessage(message);
  }

  lemma SplitMessage(message: seq<byte>)
    requires |message| >= 6
    ensures var n := |message|;
      message == [message[0]] + message[1..3] + message[3..n - 3] + message[n - 3..n - 1] + [message[n - 1]]
  {
  }

  datatype CommandError = BrightnessOutOfRange(brightness: int)

  /**
   * setBrightness: rejects levels outside 0..100, otherwise the message with
   * payload [0x74, level]. Its checksum 4 + 0x74 + level never exceeds 255.
   */
  function SetBrightness(brightness: int): (r: Result<seq<byte>, CommandError>)
    ensures r.Failure? <==> brightness < 0 || brightness > 100
    ensures r.Failure? ==> r.error == BrightnessOutOfRange(brightness)
    ensures r.Success? ==> ParseMessage(r.value) == Some([0x74, brightness])
    ensures r.Success? ==> r.value == [0x01, 0x04, 0x00, 0x74, brightness, 0x78 + brightness, 0x00, 0x02]
  {
    if brightness < 0 || brightness > 100 then Failure(BrightnessOutOfRange(brightness))
    else
      BrightnessMessage(brightness);
      Success(CreateMessage([[0x74], [brightness]]))
  }

  /** The brightness message, byte by byte. */
  lemma BrightnessMessage(brightness: byte)
    requires brightness <= 100
    ensures |Concat([[0x74], [brightness]])| == 2
    ensures ParseMessage(CreateMessage([[0x74], [brightness]])) == Some([0x74, brightness])
    ensures CreateMessage([[0x74], [brightness]]) == [0x01, 0x04, 0x00, 0x74, brightness, 0x78 + brightness, 0x00, 0x02]
  {
    var parts: seq<seq<byte>> := [[0x74], [brightness]];
    assert Concat(parts) == [0x74, brightness] by {
      assert parts[..1][..0] == [];
      assert Concat(parts[..1]) == [0x74];
      assert parts[..2][..1] == parts[..1];
    }
    ParseCreateMessage(parts);
    var message := CreateMessage(parts);
    SumOfLengthAndBrightness(message[1..5], brightness);
    assert message[5] == 0x78 + brightness && message[6] == 0x00;
  }

  lemma SumOfLengthAndBrightness(bytes: seq<byte>, brightness: byte)
    requires bytes == [0x04, 0x00, 0x74, brightness]
    ensures Sum(bytes) == 0x78 + brightness
  {
    assert Sum(bytes[..1]) == 0x04 by { assert bytes[..1][..0] == []; }
    assert Sum(bytes[..2]) == 0x04 by { assert bytes[..2][..1] == bytes[..1]; }
    assert Sum(bytes[..3]) == 0x78 by { assert bytes[..3][..2] == bytes[..2]; }
    assert bytes[..4][..3] == bytes[..3];
  }

  /** Brightness 100, byte by byte: checksum 0x04 + 0x74 + 0x64 = 0xDC. */
  lemma Brightness100()
    ensures SetBrightness(100) == Success([0x01, 0x04, 0x00, 0x74, 0x64, 0xDC, 0x00, 0x02])
  {
  }

  /**
   * What canvas.toImageData() returns: the palette, its colors as bytes, and
   * the pixel indices as bytes. Its computation is not part of this model,
   * so the encoder takes the value as given.
   */
  datatype ImageData = ImageData(palette: seq<Canvas.Color>, paletteBuffer: seq<byte>, screenBuffer: seq<byte>)

  /**
   * The frame-size field: its own 2 bytes, frame time, palette type, palette
   * count, palette bytes and screen bytes. The 0xAA header is not counted.
   */
  function FrameSize(image: ImageData): int
  {
    2 + 2 + 1 + 2 + |image.paletteBuffer| + |image.screenBuffer|
  }

  /**
   * The static-image payload: command 0x44, the prefix 00 0A 0A 04, the
   * frame header 0xAA, frame size, frame time 0, palette type 3, palette
   * count, palette bytes and screen bytes, in that order.
   */
  ghost predicate IsStaticImagePayload(payload: seq<byte>, image: ImageData)
  {
    && |payload| == 13 + |image.paletteBuffer| + |image.screenBuffer|
    && payload[..6] == [0x44, 0x00, 0x0A, 0x0A, 0x04, 0xAA]
    && Value16(payload[6], payload[7]) == FrameSize(image)
    && payload[8..10] == [0x00, 0x00]
    && payload[10] == 0x03
    && Value16(payload[11], payload[12]) == |image.palette|
    && payload[13..13 + |image.paletteBuffer|] == image.paletteBuffer
    && payload[13 + |image.paletteBuffer|..] == image.screenBuffer
  }

  /** The parts setStaticImage hands to createMessage, in order. */
  function StaticImageParts(image: ImageData): (parts: seq<seq<byte>>)
    requires |image.palette| < 65536 && FrameSize(image) < 65536
    ensures |parts| == 9
  {
    [ [0x44],                          // command
      [0x00, 0x0A, 0x0A, 0x04],        // prefix, meaning unknown
      [0xAA],                          // frame header
      LE16([FrameSize(image)]),
      LE16([0]),                       // frame time, 0 for a static image
      [0x03],                          // palette type
      LE16([|image.palette|]),
      image.paletteBuffer,
      image.screenBuffer ]
  }

  /** setStaticImage: one message carrying the frame of the image data. */
  function SetStaticImage(image: ImageData): (message: seq<byte>)
    requires |image.palette| < 65536
    requires FrameSize(image) + 8 < 65536
    ensures ParseMessage(message).Some?
    ensures IsStaticImagePayload(ParseMessage(message).value, image)
    ensures Value16(message[1], message[2]) == FrameSize(image) + 8
  {
    var parts := StaticImageParts(image);
    StaticImagePayload(image);
    ParseCreateMessage(parts);
    CreateMessage(parts)
  }

  lemma StaticImagePayload(image: ImageData)
    requires |image.palette| < 65536 && FrameSize(image) < 65536
    ensures IsStaticImagePayload(Concat(StaticImageParts(image)), image)
  {
    var parts := StaticImageParts(image);
    var header := [0x44] + [0x00, 0x0A, 0x0A, 0x04] + [0xAA] + LE16([FrameSize(image)])
      + LE16([0]) + [0x03] + LE16([|image.palette|]);
    ConcatOfParts(parts);
    assert Concat(parts) == header + image.paletteBuffer + image.screenBuffer;
  }

  lemma ConcatOfParts(parts: seq<seq<byte>>)
    requires |parts| == 9
    ensures Concat(parts) == parts[0] + parts[1] + parts[2] + parts[3] + parts[4] + parts[5] + parts[6] + parts[7] + parts[8]
  {
    assert Concat(parts[..1]) == parts[0] by { assert parts[..1][..0] == []; }
    assert Concat(parts[..2]) == Concat(parts[..1]) + parts[1] by { assert parts[..2][..1] == parts[..1]; }
    assert Concat(parts[..3]) == Concat(parts[..2]) + parts[2] by { assert parts[..3][..2] == parts[..2]; }
    assert Concat(parts[..4]) == Concat(parts[..3]) + parts[3] by { assert parts[..4][..3] == parts[..3]; }
    assert Concat(parts[..5]) == Concat(parts[..4]) + parts[4] by { assert parts[..5][..4] == parts[..4]; }
    assert Concat(parts[..6]) == Concat(parts[..5]) + parts[5] by { assert parts[..6][..5] == parts[..5]; }
    assert Concat(parts[..7]) == Concat(parts[..6]) + parts[6] by { assert parts[..7][..6] == parts[..6]; }
    assert Concat(parts[..8]) == Concat(parts[..7]) + parts[7] by { assert parts[..8][..7] == parts[..7]; }
    assert Concat(parts[..9]) == Concat(parts[..8]) + parts[8] by { assert parts[..9][..8] == parts[..8]; }
    assert parts[..9] == parts;
  }

  /**
   * The frame record runs from the 0xAA header to the end of the payload,
   * and the frame-size field counts one byte less: the header itself.
   */
  lemma FrameSizeExcludesHeader(image: ImageData)
    requires |image.palette| < 65536
    requires FrameSize(image) + 8 < 65536
    ensures var payload := ParseMessage(SetStaticImage(image)).value;
      payload[5] == 0xAA && |payload[5..]| == FrameSize(image) + 1
  {
  }
}

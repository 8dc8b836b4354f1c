/** The process that reads the board's frames over I2C and writes their lines into the
    pipe. */
module FrameReader {
  import opened Options
  import opened Text
  import opened Wire
  import Relay

  type RawFrame = b: seq<char> | |b| == FRAME_SIZE witness seq(FRAME_SIZE, i => '\0')

  /** The frames among the reads; a failed or short read gives none. */
  function Whole(input: seq<Option<RawFrame>>): seq<RawFrame> {
    if input == [] then [] else
      Whole(input[..|input| - 1]) +
      if input[|input| - 1].Some? then [input[|input| - 1].value] else []
  }

  /** The lines of the frames of a known type, each with its newline. */
  function Encoded(frames: seq<RawFrame>): seq<string> {
    if frames == [] then [] else
      var last := frames[|frames| - 1];
      Encoded(frames[..|frames| - 1]) + if KnownKind(last[0]) then [Line(FieldsOf(last)) + "\n"] else []
  }

  lemma WholeSnoc(input: seq<Option<RawFrame>>, r: Option<RawFrame>)
    ensures Whole(input + [r]) == Whole(input) + if r.Some? then [r.value] else []
  {
    assert (input + [r])[..|input|] == input;
  }

  lemma EncodedSnoc(frames: seq<RawFrame>, b: RawFrame)
    ensures Encoded(frames + [b])
         == Encoded(frames) + if b[0] == 'S' || b[0] == 'E' then [Line(FieldsOf(b)) + "\n"] else []
  {
    assert (frames + [b])[..|frames|] == frames;
  }

  class I2cReader {
    ghost var input: seq<Option<RawFrame>>  // what every I2C read returned
    ghost var attempted: seq<string>          // every argument of the pipe write
    ghost var outcomes: seq<bool>             // its results
    ghost var piped: string                   // what went into the pipe

    /** Every frame of a known type has been passed on as its line, once, in order. */
    ghost predicate Valid()
      reads this
    {
      Passed(Encoded(Whole(input)))
    }

    ghost predicate Passed(lines: seq<string>)
      reads this
    {
      && attempted == lines && |outcomes| == |attempted|
      && piped == Concat(Relay.Kept(attempted, outcomes))
    }

    constructor ()
      ensures Valid() && input == [] && piped == ""
    {
      input, attempted, outcomes, piped := [], [], [], "";
    }

    /** The I2C read into the buffer: an error, too few bytes, or a frame. */
    method ReadFrame(buf: array<char>) returns (whole: bool)
      requires buf.Length == FRAME_SIZE
      modifies buf, `input
      ensures input == old(input) + [if whole then Some(buf[..]) else None]
    {
      var bytes: seq<char> := *;
      whole := |bytes| == FRAME_SIZE;
      forall i | 0 <= i < FRAME_SIZE && i < |bytes| { buf[i] := bytes[i]; }
      input := input + [if whole then Some(buf[..]) else None];
    }

    method WritePipe(wire: string) returns (ok: bool)
      requires Passed(attempted)
      modifies `attempted, `outcomes, `piped
      ensures Passed(old(attempted) + [wire]) && outcomes == old(outcomes) + [ok]
    {
      ok := *;
      ghost var kept := Relay.Kept(attempted, outcomes);
      Relay.KeptSnoc(attempted, outcomes, wire, ok);
      ConcatSnoc(kept, wire);
      assert kept + [] == kept;
      attempted, outcomes := attempted + [wire], outcomes + [ok];
      if ok {
        piped := piped + wire;
      }
    }

    /** One round of the main loop. */
    method Round()
      requires Valid()
      modifies this
      ensures Valid() && |input| == |old(input)| + 1 && old(input) <= input
    {
      var buf := new char[FRAME_SIZE](_ => '\0');
      ghost var before := input;
      var whole := ReadFrame(buf);
      ghost var read := buf[..];
      assert Whole(before) + [] == Whole(before) && attempted + [] == attempted;
      if !whole {
        WholeSnoc(before, None);
        return;
      }
      WholeSnoc(before, Some(read));
      EncodedSnoc(Whole(before), read);
      var wire := EncodeFrame(buf);
      if wire.Some? {
        var ok := WritePipe(wire.value);
      }
    }

    /** The main loop, for any number of rounds before a stop signal. */
    method Run(rounds: nat)
      requires Valid()
      modifies this
      ensures Valid() && |input| == |old(input)| + rounds && old(input) <= input
    {
      var left := rounds;
      while left > 0
        invariant Valid() && 0 <= left && |input| + left == |old(input)| + rounds && old(input) <= input
        decreases left
      {
        Round();
        left := left - 1;
      }
    }
  }
}

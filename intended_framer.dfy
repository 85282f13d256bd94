/** The framing `parseBuffer` (main.ts:85-98) evidently means to do, and the NMEA 0183
    sentence format describes: append the text read from the serial port, resync on
    '$', and hand on a sentence only once its line feed has arrived, consuming the
    sentence together with its line feed. */
module IntendedFramer {
  import opened JacStack

  /** One corrected `parseBuffer` call on buffer `buffer` with `incoming` just read. */
  function IntendedStep(buffer: string, incoming: string): (r: StepResult)
    // a line is emitted only when terminated, and exactly the line and its line
    // feed are consumed
    ensures var s := Resync(buffer + incoming);
      match r.line
      case Some(l) => s == l + ['\n'] + r.buffer && l[0] == '$' && '\n' !in l
      case None => r.buffer == s && '\n' !in s
  {
    var s := Resync(buffer + incoming);
    var line := FirstLine(s);
    if |s| > 0 && |line| < |s| then
      StepResult(s[|line| + 1..], Some(line))
    else
      StepResult(s, None)
  }

  /** Text read from the serial port reaches the buffer: with '$'-free garbage left
      in the buffer, a terminated sentence just read is emitted, and what follows its
      line feed is kept. */
  lemma IntendedFramesSentence(garbage: string, body: string, rest: string)
    requires '$' !in garbage && '\n' !in body
    ensures IntendedStep(garbage, ['$'] + body + ['\n'] + rest)
         == StepResult(rest, Some(['$'] + body))
  {
    var sentence := ['$'] + body;
    var incoming := sentence + ['\n'] + rest;
    var b := garbage + incoming;
    assert b[|garbage|..] == incoming;
    ResyncAtFirstMarker(b, |garbage|);
    FirstLineOfTerminated(sentence, rest);
    assert incoming[|sentence| + 1..] == rest;
  }

  /** A sentence whose line feed has not arrived yet is kept whole and not emitted. */
  lemma IntendedWaitsForTerminator(buffer: string, incoming: string)
    requires '\n' !in Resync(buffer + incoming)
    ensures IntendedStep(buffer, incoming) == StepResult(Resync(buffer + incoming), None)
  {
  }

  /** Every emitted sentence shrinks the buffer by its length plus one: the line and
      its line feed leave the buffer, so a later call cannot emit the same text again. */
  lemma IntendedMakesProgress(buffer: string, incoming: string)
    requires IntendedStep(buffer, incoming).line.Some?
    ensures var r := IntendedStep(buffer, incoming);
      |r.buffer| == |Resync(buffer + incoming)| - |r.line.value| - 1
  {
    var r := IntendedStep(buffer, incoming);
    assert |Resync(buffer + incoming)| == |r.line.value + ['\n'] + r.buffer|;
  }
}

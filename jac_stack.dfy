/** The serial line framer of the jac:stack GPS extension (main.ts, `parseBuffer`),
    modelled as the code is written. The module-level `_serialBuffer` becomes the
    field `Stack.serialBuffer`; `parseNMEA`, whose body is empty, becomes a recorder
    that appends every line it is handed to the ghost log `Stack.parsed`. */
module JacStack {

  datatype Option<T> = None | Some(value: T)

  /** What one `parseBuffer` call leaves behind: the new buffer, and the line handed
      to `parseNMEA`, if any. */
  datatype StepResult = StepResult(buffer: string, line: Option<string>)

  /** The buffer after a run of `parseBuffer` calls, and every line they emitted, in order. */
  datatype Trace = Trace(buffer: string, lines: seq<string>)

  /** How many leading characters the resync loop drops: those before the first '$',
      or all of them when there is none. */
  function SyncIndex(s: string): (k: nat)
    ensures k <= |s|
    ensures k == |s| || s[k] == '$'
    ensures forall i :: 0 <= i < k ==> s[i] != '$'
  {
    if |s| > 0 && s[0] != '$' then 1 + SyncIndex(s[1..]) else 0
  }

  /** The buffer after the resync loop: leading characters are dropped until the
      buffer is empty or starts with the sentence-start marker '$'. */
  function Resync(s: string): string
  {
    s[SyncIndex(s)..]
  }

  /** Where `split("\n")[0]` ends: at the first line feed, or at the end of `s` when
      it holds none. */
  function LineLength(s: string): (k: nat)
    ensures k <= |s|
    ensures k == |s| || s[k] == '\n'
    ensures forall i :: 0 <= i < k ==> s[i] != '\n'
  {
    if s == [] || s[0] == '\n' then 0 else 1 + LineLength(s[1..])
  }

  /** JavaScript's `s.split("\n")[0]`. */
  function FirstLine(s: string): string
  {
    s[..LineLength(s)]
  }

  /** Resync only removes a prefix: the result is a suffix of the buffer that is
      empty or starts with '$', and no '$' was dropped. */
  lemma ResyncDropsPrefix(s: string)
    ensures var r := Resync(s);
      && |r| <= |s| && r == s[|s| - |r|..]
      && (r == [] || r[0] == '$')
      && (forall i :: 0 <= i < |s| - |r| ==> s[i] != '$')
  {
  }

  /** Resync leaves a buffer that already starts with '$' as it is, so it is idempotent. */
  lemma ResyncNoOp(s: string)
    ensures |s| > 0 && s[0] == '$' ==> Resync(s) == s
    ensures Resync(Resync(s)) == Resync(s)
  {
  }

  /** One `parseBuffer` call from buffer contents `buffer`. The text read from the
      serial port does not appear: the source discards the result of `concat`. */
  function Step(buffer: string): StepResult
  {
    var s := Resync(buffer);
    if |s| > 0 && s[0] == '$' then
      var line := FirstLine(s);
      StepResult(s[|line| - 1..], Some(line))
    else
      StepResult(s, None)
  }

  /** `parseNMEA` is called exactly when the resynced buffer is non-empty; otherwise
      the buffer is left empty. */
  lemma StepEmitsIffSynced(buffer: string)
    ensures Step(buffer).line.Some? <==> Resync(buffer) != []
    ensures Step(buffer).line.None? ==> Step(buffer).buffer == []
  {
  }

  /** A buffer with no '$' anywhere, the empty buffer included, drains completely and
      nothing is emitted. */
  lemma StepDrainsWithoutMarker(buffer: string)
    requires '$' !in buffer
    ensures Step(buffer) == StepResult([], None)
  {
  }

  /** The line handed to `parseNMEA` is the prefix of the resynced buffer up to its
      first line feed (all of it when there is none), starts with '$', holds no line
      feed; the buffer keeps the resynced text from the line's last character on, so
      it never grows. */
  lemma StepLine(buffer: string)
    requires Step(buffer).line.Some?
    ensures var s, l, b := Resync(buffer), Step(buffer).line.value, Step(buffer).buffer;
      && 0 < |l| <= |s|
      && l == s[..|l|]
      && l[0] == '$'
      && '\n' !in l
      && (|l| == |s| || s[|l|] == '\n')
      && b == s[|l| - 1..]
      && |b| == |s| - (|l| - 1) <= |buffer|
  {
  }

  /** `n` successive `parseBuffer` calls: the final buffer and the lines emitted, in order. */
  function Run(buffer: string, n: nat): Trace
  {
    if n == 0 then Trace(buffer, [])
    else
      var r := Step(buffer);
      var later := Run(r.buffer, n - 1);
      Trace(later.buffer, Emitted(r.line) + later.lines)
  }

  /** The lines handed to `parseNMEA` by one call. */
  function Emitted(line: Option<string>): seq<string>
  {
    match line
    case Some(l) => [l]
    case None => []
  }

  /** The buffer starts out empty and, because incoming text never reaches it, stays
      empty: no call ever hands a line to `parseNMEA`. */
  lemma {:induction false} RunFromEmpty(n: nat)
    ensures Run([], n).buffer == [] && Run([], n).lines == []
  {
    if n > 0 {
      assert Step([]) == StepResult([], None) by { assert Resync([]) == []; }
      RunFromEmpty(n - 1);
    }
  }

  /** The resynced buffer begins exactly at the first '$' of the original. */
  lemma ResyncAtFirstMarker(s: string, k: nat)
    requires k < |s| && s[k] == '$'
    requires forall i :: 0 <= i < k ==> s[i] != '$'
    ensures Resync(s) == s[k..]
  {
  }

  /** Once the buffer starts with a bare "$" line, the buffer never changes again and
      every call hands "$" to `parseNMEA`. */
  lemma StuckOnBareMarker(b: string)
    requires |b| >= 2 && b[0] == '$' && b[1] == '\n'
    ensures Step(b) == StepResult(b, Some(['$']))
  {
    assert FirstLine(b) == ['$'];
  }

  lemma {:induction false} RunStuckOnBareMarker(b: string, n: nat)
    requires |b| >= 2 && b[0] == '$' && b[1] == '\n'
    ensures Run(b, n).buffer == b
    ensures Run(b, n).lines == seq(n, _ => ['$'])
  {
    if n > 0 {
      StuckOnBareMarker(b);
      RunStuckOnBareMarker(b, n - 1);
      assert seq(n, _ => ['$']) == [['$']] + seq(n - 1, _ => ['$']);
    }
  }

  /** `split("\n")[0]` of a terminated line is that line. */
  lemma {:induction false} FirstLineOfTerminated(l: string, rest: string)
    requires '\n' !in l
    ensures FirstLine(l + ['\n'] + rest) == l
  {
    if l != [] {
      assert (l + ['\n'] + rest)[1..] == l[1..] + ['\n'] + rest;
      FirstLineOfTerminated(l[1..], rest);
    } else {
      assert (l + ['\n'] + rest)[0] == '\n';
    }
  }

  /** A sentence with no line feed yet is emitted all the same, and only its last
      character is kept in the buffer. */
  lemma UnterminatedIsEmitted(body: string)
    requires '\n' !in body
    ensures Step(['$'] + body) == StepResult([(['$'] + body)[|body|]], Some(['$'] + body))
  {
    var s := ['$'] + body;
    assert FirstLine(s) == s;
  }

  /** Leading garbage is dropped and a terminated sentence is emitted; the buffer
      keeps the sentence's last character, the line feed and all that follows. */
  lemma GarbagePrefixDropped(garbage: string, body: string, rest: string)
    requires '$' !in garbage && '\n' !in body
    ensures var sentence := ['$'] + body;
      Step(garbage + sentence + ['\n'] + rest)
        == StepResult((sentence + ['\n'] + rest)[|body|..], Some(sentence))
  {
    var sentence := ['$'] + body;
    var b := garbage + sentence + ['\n'] + rest;
    assert b[|garbage|..] == sentence + ['\n'] + rest;
    ResyncAtFirstMarker(b, |garbage|);
    FirstLineOfTerminated(sentence, rest);
  }

  class Stack {
    /** `_serialBuffer` (main.ts:13) */
    var serialBuffer: string
    /** Every line handed to `parseNMEA`, oldest first. */
    ghost var parsed: seq<string>

    constructor ()
      ensures serialBuffer == [] && parsed == []
    {
      serialBuffer := [];
      parsed := [];
    }

    /** `parseNMEA` has an empty body; the model records its argument. */
    method ParseNmea(line: string)
      modifies this`parsed
      ensures parsed == old(parsed) + [line]
    {
      parsed := parsed + [line];
    }

    /** `parseBuffer`, with `incoming` standing for `serial.readString()`. */
    method ParseBuffer(incoming: string)
      modifies this
      ensures serialBuffer == Step(old(serialBuffer)).buffer
      ensures |serialBuffer| <= |old(serialBuffer)|
      ensures parsed == old(parsed) + Emitted(Step(old(serialBuffer)).line)
      ensures old(serialBuffer) == [] ==> serialBuffer == [] && parsed == old(parsed)
    {
      // the concatenation is computed and thrown away, as at main.ts:86
      var joined := serialBuffer + incoming;

      while |serialBuffer| > 0 && serialBuffer[0] != '$'
        invariant Resync(serialBuffer) == Resync(old(serialBuffer))
        invariant parsed == old(parsed)
        decreases |serialBuffer|
      {
        serialBuffer := serialBuffer[1..];
      }

      ghost var synced := serialBuffer;
      assert synced == Resync(old(serialBuffer));
      if |serialBuffer| > 0 && serialBuffer[0] == '$' {
        var line := FirstLine(serialBuffer);
        ParseNmea(line);
        serialBuffer := serialBuffer[|line| - 1..];
        assert Step(old(serialBuffer)) == StepResult(serialBuffer, Some(line));
        StepLine(old(serialBuffer));
      } else {
        assert Step(old(serialBuffer)) == StepResult(serialBuffer, None);
      }
    }
  }
}

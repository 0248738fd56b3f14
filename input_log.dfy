/** The log buffer of the viewer: every line received from standard input is
    appended to one text buffer, prefixed by '>', and the byte offset where it
    begins is recorded in a bounded index of line starts. The redraw handler
    shows the text from the start of the 60th most recent line on. */
module InputLog {

  import opened Wrappers

  /** One byte of the UTF-8 text; Rust's `String::len` counts these. */
  type byte = b: int | 0 <= b < 0x100

  /** Once more than this many line starts are held, the oldest are dropped. */
  const MaxLineStarts: nat := 200

  /** How many of the oldest line starts one trim drops. */
  const TrimCount: nat := 10

  /** How many of the most recent lines the redraw shows. */
  const DisplayedLines: nat := 60

  /** The byte of '>', written in front of every accepted line. */
  const Prompt: byte := 0x3E

  /** What one non-blocking receive on the input channel returns: a line, or
      nothing (the channel is empty or its sender has gone away). */
  datatype Received = Received(line: seq<byte>) | NothingReceived

  /** The abstract state of the buffer: the accumulated text and the offsets
      in it where the retained lines begin. */
  datatype Log = Log(text: seq<byte>, starts: seq<nat>)

  /** The buffer before any line arrived: no text, one start at offset 0. */
  const Initial: Log := Log([], [0])

  predicate Sorted(s: seq<nat>)
  {
    forall i, j :: 0 <= i < j < |s| ==> s[i] <= s[j]
  }

  /** Offset `s` lies within the text and, unless it is the very end, points
      at the '>' that opens a line. */
  predicate StartsLine(text: seq<byte>, s: nat)
  {
    s <= |text| && (s < |text| ==> text[s] == Prompt)
  }

  /** The invariant the redraw handler relies on without checking it. */
  predicate Wellformed(log: Log)
  {
    && 1 <= |log.starts| <= MaxLineStarts
    && Sorted(log.starts)
    && forall i :: 0 <= i < |log.starts| ==> StartsLine(log.text, log.starts[i])
  }

  /** Only a received, non-empty line changes the buffer. */
  predicate Accepts(msg: Received)
  {
    msg.Received? && |msg.line| > 0
  }

  /** The trim of the line index after a push. */
  function Trim(s: seq<nat>): (r: seq<nat>)
    ensures |r| <= |s| && r == s[|s| - |r|..]
  {
    if |s| > MaxLineStarts then s[TrimCount..] else s
  }

  /** One pass of the receive block of the redraw handler. */
  function Step(log: Log, msg: Received): (r: Log)
    ensures |log.text| <= |r.text| && r.text[..|log.text|] == log.text
    ensures |r.text| == |log.text| + (if Accepts(msg) then 1 + |msg.line| else 0)
  {
    if Accepts(msg) then
      Log(log.text + [Prompt] + msg.line, Trim(log.starts + [|log.text|]))
    else
      log
  }

  /** The buffer after a sequence of redraws, one receive each. */
  function Run(log: Log, msgs: seq<Received>): Log
    decreases |msgs|
  {
    if msgs == [] then log else Run(Step(log, msgs[0]), msgs[1..])
  }

  /** Trimming drops a prefix of exactly ten entries, and only once the index
      holds more than 200; what remains is the newest part, in its order. */
  lemma TrimKeepsNewest(s: seq<nat>)
    ensures |s| <= MaxLineStarts ==> Trim(s) == s
    ensures |s| > MaxLineStarts ==> |Trim(s)| == |s| - TrimCount
    ensures s == s[..|s| - |Trim(s)|] + Trim(s)
    ensures forall i :: 0 <= i < |Trim(s)| ==> Trim(s)[i] == s[i + |s| - |Trim(s)|]
  {
    assert s == s[..|s| - |Trim(s)|] + s[|s| - |Trim(s)|..];
  }

  /** An accepted line: the old text stays a prefix, the new text ends with
      '>' and the line, and the newest start is where '>' was written. The
      index grows by one, except that a 201st entry makes it drop to 191. */
  lemma AcceptAppends(log: Log, msg: Received)
    requires Wellformed(log)
    requires Accepts(msg)
    ensures var next := Step(log, msg);
      && next.text[..|log.text|] == log.text
      && next.text[|log.text|..] == [Prompt] + msg.line
      && |next.starts| > 0
      && next.starts[|next.starts| - 1] == |log.text|
      && next.text[next.starts[|next.starts| - 1]] == Prompt
      && |next.starts| == (if |log.starts| == MaxLineStarts then MaxLineStarts + 1 - TrimCount
                           else |log.starts| + 1)
  {
    var pushed := log.starts + [|log.text|];
    TrimKeepsNewest(pushed);
  }

  /** Anything other than a non-empty line leaves text and index alone. */
  lemma IgnoredLeavesLog(log: Log, msg: Received)
    requires !Accepts(msg)
    ensures Step(log, msg).text == log.text && Step(log, msg).starts == log.starts
  {
  }

  /** The receive block keeps the invariant. */
  lemma StepPreservesWellformed(log: Log, msg: Received)
    requires Wellformed(log)
    ensures Wellformed(Step(log, msg))
  {
    if Accepts(msg) {
      var text' := log.text + [Prompt] + msg.line;
      var pushed := log.starts + [|log.text|];
      forall i | 0 <= i < |pushed|
        ensures StartsLine(text', pushed[i])
      {
        if i < |log.starts| {
          assert StartsLine(log.text, log.starts[i]);
          if log.starts[i] < |log.text| {
            assert text'[log.starts[i]] == log.text[log.starts[i]];
          }
        } else {
          assert text'[|log.text|] == Prompt;
        }
      }
      assert Sorted(pushed) by {
        forall i, j | 0 <= i < j < |pushed| ensures pushed[i] <= pushed[j] {
          if j == |log.starts| {
            assert StartsLine(log.text, log.starts[i]);
          }
        }
      }
      TrimKeepsNewest(pushed);
    }
  }

  /** From the initial buffer, whatever the channel delivers, the index is
      never empty, never over 200 entries, sorted, and every entry opens a
      line of the text. */
  lemma {:induction false} RunPreservesWellformed(log: Log, msgs: seq<Received>)
    requires Wellformed(log)
    ensures Wellformed(Run(log, msgs))
    decreases |msgs|
  {
    if msgs != [] {
      StepPreservesWellformed(log, msgs[0]);
      RunPreservesWellformed(Step(log, msgs[0]), msgs[1..]);
    }
  }

  /** Offset `s` is the '>' that opens a line: unlike `StartsLine`, the end
      of the text does not qualify. */
  predicate OpensLine(text: seq<byte>, s: nat)
  {
    s < |text| && text[s] == Prompt
  }

  /** Once a line has been accepted, no start is the end of the text any
      more: every entry of the index lies strictly inside the text, on the
      '>' of its line. (Only the initial `[0]` over the empty text is the
      exception the invariant allows.) */
  lemma AcceptOpensEveryLine(log: Log, msg: Received)
    requires Wellformed(log)
    requires Accepts(msg)
    ensures var next := Step(log, msg);
      forall i :: 0 <= i < |next.starts| ==> OpensLine(next.text, next.starts[i])
  {
    var text' := log.text + [Prompt] + msg.line;
    var pushed := log.starts + [|log.text|];
    forall i | 0 <= i < |pushed|
      ensures OpensLine(text', pushed[i])
    {
      if i < |log.starts| {
        assert StartsLine(log.text, log.starts[i]);
        if log.starts[i] < |log.text| {
          assert text'[log.starts[i]] == log.text[log.starts[i]];
        }
      }
    }
    TrimKeepsNewest(pushed);
  }

  lemma InitialWellformed()
    ensures Wellformed(Initial)
  {
  }

  /** Rust's `v[i]` on a vector of offsets; a negative `i` stands for the
      unsigned subtraction that produced it underflowing. `None` is a panic. */
  function Index(s: seq<nat>, i: int): (r: Option<nat>)
    ensures r.Some? <==> 0 <= i < |s|
    ensures r.Some? ==> r.value in s
  {
    if 0 <= i < |s| then Some(s[i]) else None
  }

  /** Rust's `str::is_char_boundary`: the ends of the text, or a byte that is
      not a UTF-8 continuation byte (0x80 to 0xBF). */
  predicate IsCharBoundary(text: seq<byte>, i: nat): (b: bool)
    ensures b ==> i <= |text|
    ensures i < |text| && text[i] < 0x80 ==> b
  {
    i == 0 || i == |text| || (i < |text| && !(0x80 <= text[i] < 0xC0))
  }

  /** Rust's `text.get(start..)`: the tail of the text, or `None` when
      `start` is past the end or inside a UTF-8 sequence. */
  function SliceFrom(text: seq<byte>, start: nat): (r: Option<seq<byte>>)
    ensures r.Some? <==> start <= |text| && IsCharBoundary(text, start)
    ensures r.Some? ==> text == text[..start] + r.value
  {
    if IsCharBoundary(text, start) then Some(text[start..]) else None
  }

  /** The start offset chosen by the redraw: the first entry while fewer than
      60 are held, otherwise the one 60 from the end. */
  function DisplayStart(starts: seq<nat>): (r: Option<nat>)
    ensures r.Some? <==> |starts| > 0
    ensures r.Some? ==> r.value in starts
  {
    if |starts| < DisplayedLines then Index(starts, 0)
    else Index(starts, |starts| - DisplayedLines)
  }

  /** The text handed to the line-by-line drawing; `None` is a panic of one
      of the two `unwrap`-like steps. */
  function Displayed(log: Log): (r: Option<seq<byte>>)
    ensures r.Some? ==> |r.value| <= |log.text| && log.text[|log.text| - |r.value|..] == r.value
  {
    match DisplayStart(log.starts)
    case None => None
    case Some(start) => SliceFrom(log.text, start)
  }

  function Min(a: nat, b: nat): nat
  {
    if a <= b then a else b
  }

  /** The starts of the (at most 60) most recent lines. */
  function RecentStarts(starts: seq<nat>): seq<nat>
  {
    starts[|starts| - Min(DisplayedLines, |starts|)..]
  }

  /** With a sorted, non-empty index the chosen start exists and is the
      smallest start of the most recent 60 lines (of all of them, while
      fewer than 60 are held). An empty index is what would make the
      `line_starts[0]` panic. */
  lemma DisplayStartIsRecentMinimum(starts: seq<nat>)
    requires Sorted(starts)
    ensures DisplayStart(starts).Some? <==> |starts| > 0
    ensures DisplayStart(starts).Some? ==>
      && DisplayStart(starts).value in RecentStarts(starts)
      && forall k :: 0 <= k < |RecentStarts(starts)| ==> DisplayStart(starts).value <= RecentStarts(starts)[k]
  {
    if |starts| > 0 {
      var w := RecentStarts(starts);
      var lo := |starts| - Min(DisplayedLines, |starts|);
      assert w[0] == starts[lo];
      forall k | 0 <= k < |w| ensures starts[lo] <= w[k] {
        assert w[k] == starts[lo + k];
      }
    }
  }

  /** On a well-formed buffer the redraw never panics: the chosen start is in
      range, lies on a character boundary, and the text shown is the tail of
      the buffer from there, holding every one of the displayed lines. */
  lemma DisplayNeverFails(log: Log)
    requires Wellformed(log)
    ensures DisplayStart(log.starts).Some?
    ensures var start := DisplayStart(log.starts).value;
      && Displayed(log) == Some(log.text[start..])
      && forall k :: 0 <= k < |RecentStarts(log.starts)| ==> start <= RecentStarts(log.starts)[k] <= |log.text|
  {
    DisplayStartIsRecentMinimum(log.starts);
    var start := DisplayStart(log.starts).value;
    var i :| 0 <= i < |log.starts| && log.starts[i] == start;
    assert StartsLine(log.text, start);
    var w := RecentStarts(log.starts);
    var lo := |log.starts| - Min(DisplayedLines, |log.starts|);
    forall k | 0 <= k < |w| ensures w[k] <= |log.text| {
      assert w[k] == log.starts[lo + k];
      assert StartsLine(log.text, log.starts[lo + k]);
    }
  }

  /** The two local variables of the event loop that hold the log. */
  class LogBuffer {
    var text: seq<byte>
    var starts: seq<nat>

    function Model(): Log
      reads this
    {
      Log(text, starts)
    }

    ghost predicate Valid()
      reads this
    {
      Wellformed(Model())
    }

    /** `String::new()` and `vec![0]`. */
    constructor ()
      ensures Model() == Initial && Valid()
    {
      text := [];
      starts := [0];
    }

    /** The `match reciever.try_recv()` block of the redraw handler. */
    method Receive(msg: Received)
      requires Valid()
      modifies this
      ensures Valid()
      ensures Model() == Step(old(Model()), msg)
      ensures Accepts(msg) ==> text == old(text) + [Prompt] + msg.line
      ensures Accepts(msg) && |old(starts)| < MaxLineStarts ==> starts == old(starts) + [|old(text)|]
      ensures Accepts(msg) && |old(starts)| == MaxLineStarts ==> starts == (old(starts) + [|old(text)|])[TrimCount..]
      ensures !Accepts(msg) ==> text == old(text) && starts == old(starts)
    {
      StepPreservesWellformed(Model(), msg);
      if msg.Received? && |msg.line| > 0 {
        ghost var before := Model();
        starts := starts + [|text|];
        if |starts| > MaxLineStarts {
          ghost var pushed := starts;
          var k := 1;
          while k <= TrimCount
            invariant 1 <= k <= TrimCount + 1
            invariant starts == pushed[k - 1..]
            invariant text == before.text
          {
            starts := starts[1..];
            k := k + 1;
          }
        }
        assert starts == Trim(before.starts + [|before.text|]);
        text := text + [Prompt] + msg.line;
      }
    }

    /** The text `draw_stuff` lays out: the buffer from the start of the 60th
        most recent line on. */
    method DisplayedText() returns (shown: seq<byte>)
      requires Valid()
      ensures Displayed(Model()) == Some(shown)
      ensures |shown| <= |text| && text[|text| - |shown|..] == shown
    {
      DisplayNeverFails(Model());
      var start := if |starts| < DisplayedLines then starts[0] else starts[|starts| - DisplayedLines];
      shown := text[start..];
    }
  }
}

/**
 * The protocol state machine of the layout watcher: the three phases of the
 * event-stream handshake, the layout table filled once from the snapshot,
 * and the index of the layout now active.  Every notification dispatched is
 * recorded, in order, in a log.
 *
 * `Step` is the specification of one decoded line; `ProgramState` is the
 * mutable state object and its `ProcessLine` is proved against `Step`.
 */
module Protocol {
  import opened Wrappers

  /** The phase of the session: waiting for the acknowledgement, waiting for
      the layout snapshot, or receiving switch events. */
  datatype Phase = Waiting | LayoutInit | Receiving

  /** One entry of the snapshot's `names` array: a JSON string or anything else. */
  datatype Name = Text(text: string) | NotText

  /** The `KeyboardLayoutsChanged` object, reduced to what is looked up in it:
      `keyboard_layouts.current_idx` when it is a number, and
      `keyboard_layouts.names` when it is an array. */
  datatype LayoutsChanged = LayoutsChanged(currentIdx: Option<int>, names: Option<seq<Name>>)

  /** The `KeyboardLayoutSwitched` object: its `idx` when it is a number. */
  datatype LayoutSwitched = LayoutSwitched(idx: Option<int>)

  /** A line after JSON decoding.  A line that does not parse is `Unparsable`;
      a parsed value records which of the three top-level keys it carries
      (a value that is not an object carries none of them). */
  datatype Message =
    | Unparsable
    | Parsed(ok: bool, layoutsChanged: Option<LayoutsChanged>, layoutSwitched: Option<LayoutSwitched>)

  /** The abstract session: phase, layout table, current index, and the
      bodies of the notifications sent so far. */
  datatype Session = Session(phase: Phase, layouts: seq<string>, currentIdx: int, sent: seq<string>)

  /** The state `read_socket` starts from: zero-initialised, phase `Waiting`. */
  function Initial(): Session
  {
    Session(Waiting, [], 0, [])
  }

  /** The string entries of a `names` array, in order, others skipped. */
  function StringNames(names: seq<Name>): (r: seq<string>)
    ensures |r| <= |names|
  {
    if names == [] then []
    else
      var last := names[|names| - 1];
      StringNames(names[..|names| - 1]) + (if last.Text? then [last.text] else [])
  }

  /** The snapshot transition: the phase moves on even when the snapshot's
      inner fields are missing; the current index is taken only when numeric
      (it is not checked against the table), the table only from an array. */
  function ApplySnapshot(s: Session, c: LayoutsChanged): Session
  {
    Session(Receiving,
            if c.names.Some? then StringNames(c.names.value) else s.layouts,
            if c.currentIdx.Some? then c.currentIdx.value else s.currentIdx,
            s.sent)
  }

  /** The switch transition: an in-range index different from the current
      one becomes current and its name is sent as one notification. */
  function ApplySwitch(s: Session, w: LayoutSwitched): Session
  {
    if w.idx.Some? && 0 <= w.idx.value < |s.layouts| && w.idx.value != s.currentIdx then
      s.(currentIdx := w.idx.value, sent := s.sent + [s.layouts[w.idx.value]])
    else s
  }

  /** One decoded line applied to the session.  A line that does not parse,
      or that lacks the key the current phase expects, is ignored. */
  function Step(s: Session, m: Message): Session
  {
    if m.Unparsable? then s
    else
      match s.phase
      case Waiting => if m.ok then s.(phase := LayoutInit) else s
      case LayoutInit => if m.layoutsChanged.Some? then ApplySnapshot(s, m.layoutsChanged.value) else s
      case Receiving => if m.layoutSwitched.Some? then ApplySwitch(s, m.layoutSwitched.value) else s
  }

  /** The lines of a session applied in arrival order. */
  function Run(s: Session, ms: seq<Message>): Session
  {
    if ms == [] then s else Step(Run(s, ms[..|ms| - 1]), ms[|ms| - 1])
  }

  /** Position of a phase in the handshake order. */
  function Rank(p: Phase): nat
  {
    match p
    case Waiting => 0
    case LayoutInit => 1
    case Receiving => 2
  }

  /** What holds of every session reachable from `Initial()`: before the
      snapshot the table is empty, the index is 0 and nothing was sent;
      every notification names a layout of the table; and the latest
      notification names the layout that is current. */
  ghost predicate Consistent(s: Session)
  {
    && (s.phase != Receiving ==> s.layouts == [] && s.currentIdx == 0 && s.sent == [])
    && (forall i :: 0 <= i < |s.sent| ==> s.sent[i] in s.layouts)
    && (s.sent != [] ==> 0 <= s.currentIdx < |s.layouts| && s.sent[|s.sent| - 1] == s.layouts[s.currentIdx])
  }

  // ---------------------------------------------------------------------
  // The layout table built from the snapshot

  /** Splitting the `names` array splits the table: the table keeps the
      arrival order of the string entries. */
  lemma {:induction false} StringNamesAppend(a: seq<Name>, b: seq<Name>)
    ensures StringNames(a + b) == StringNames(a) + StringNames(b)
    decreases |b|
  {
    if b == [] {
      assert a + b == a;
    } else {
      var b' := b[..|b| - 1];
      assert (a + b)[..|a + b| - 1] == a + b';
      assert (a + b)[|a + b| - 1] == b[|b| - 1];
      StringNamesAppend(a, b');
    }
  }

  /** A name is in the table exactly when it is a string entry of the array. */
  lemma {:induction false} StringNamesMembership(names: seq<Name>, x: string)
    ensures x in StringNames(names) <==> Text(x) in names
    decreases |names|
  {
    if names != [] {
      var init := names[..|names| - 1];
      StringNamesMembership(init, x);
      assert names == init + [names[|names| - 1]];
    }
  }

  /** When every entry is a string the table is the array itself, entry for entry. */
  lemma {:induction false} StringNamesAllText(names: seq<Name>)
    requires forall i :: 0 <= i < |names| ==> names[i].Text?
    ensures |StringNames(names)| == |names|
    ensures forall i :: 0 <= i < |names| ==> StringNames(names)[i] == names[i].text
    decreases |names|
  {
    if names != [] {
      StringNamesAllText(names[..|names| - 1]);
    }
  }

  // ---------------------------------------------------------------------
  // One line

  /** While waiting, a message with key `Ok` moves to `LayoutInit` and
      changes nothing else; any other line changes nothing. */
  lemma StepInWaiting(s: Session, m: Message)
    requires s.phase == Waiting
    ensures Step(s, m).phase == LayoutInit <==> m.Parsed? && m.ok
    ensures Step(s, m).phase != LayoutInit ==> Step(s, m) == s
    ensures Step(s, m).(phase := Waiting) == s
  {
  }

  /** While waiting for the snapshot, only a `KeyboardLayoutsChanged`
      message does anything: it moves to `Receiving`, replaces the table by
      the string names when `names` is an array, takes `current_idx` when it
      is numeric, and sends nothing. */
  lemma StepInLayoutInit(s: Session, m: Message)
    requires s.phase == LayoutInit
    ensures Step(s, m).phase == Receiving <==> m.Parsed? && m.layoutsChanged.Some?
    ensures Step(s, m).phase != Receiving ==> Step(s, m) == s
    ensures Step(s, m).sent == s.sent
    ensures Step(s, m).phase == Receiving ==>
      var c := m.layoutsChanged.value;
      && (c.names.Some? ==> Step(s, m).layouts == StringNames(c.names.value))
      && (c.names.None? ==> Step(s, m).layouts == s.layouts)
      && (c.currentIdx.Some? ==> Step(s, m).currentIdx == c.currentIdx.value)
      && (c.currentIdx.None? ==> Step(s, m).currentIdx == s.currentIdx)
  {
  }

  /** While receiving, the phase and the table never change; a line sends
      a notification exactly when it is a switch to a numeric, in-range
      index other than the current one, and then it sends exactly one, the
      name at that index, and makes that index current.  Every other line
      changes nothing. */
  lemma StepInReceiving(s: Session, m: Message)
    requires s.phase == Receiving
    ensures Step(s, m).phase == Receiving && Step(s, m).layouts == s.layouts
    ensures Step(s, m).sent != s.sent <==>
      && m.Parsed? && m.layoutSwitched.Some? && m.layoutSwitched.value.idx.Some?
      && 0 <= m.layoutSwitched.value.idx.value < |s.layouts|
      && m.layoutSwitched.value.idx.value != s.currentIdx
    ensures Step(s, m).sent != s.sent ==>
      var i := m.layoutSwitched.value.idx.value;
      Step(s, m) == s.(currentIdx := i, sent := s.sent + [s.layouts[i]])
    ensures Step(s, m).sent == s.sent ==> Step(s, m) == s
  {
  }

  /** The phase only moves forward. */
  lemma StepPhaseForward(s: Session, m: Message)
    ensures Rank(s.phase) <= Rank(Step(s, m).phase) <= Rank(s.phase) + 1
  {
  }

  /** The same line twice in a row while receiving acts as once: a repeated
      switch event does not notify again. */
  lemma StepTwiceReceiving(s: Session, m: Message)
    requires s.phase == Receiving
    ensures Step(Step(s, m), m) == Step(s, m)
  {
  }

  /** One line keeps a session consistent. */
  lemma StepKeepsConsistent(s: Session, m: Message)
    requires Consistent(s)
    ensures Consistent(Step(s, m))
  {
  }

  // ---------------------------------------------------------------------
  // A session

  /** Every session reachable from the initial state is consistent: no
      notification before the snapshot, each notification names a layout
      of the table, and the latest one names the current layout. */
  lemma {:induction false} RunConsistent(ms: seq<Message>)
    ensures Consistent(Run(Initial(), ms))
    decreases |ms|
  {
    if ms != [] {
      RunConsistent(ms[..|ms| - 1]);
      StepKeepsConsistent(Run(Initial(), ms[..|ms| - 1]), ms[|ms| - 1]);
    }
  }

  /** Once receiving, a session stays receiving and its table is never
      changed again. */
  lemma {:induction false} RunKeepsTable(s: Session, ms: seq<Message>)
    requires s.phase == Receiving
    ensures Run(s, ms).phase == Receiving && Run(s, ms).layouts == s.layouts
    decreases |ms|
  {
    if ms != [] {
      RunKeepsTable(s, ms[..|ms| - 1]);
      StepInReceiving(Run(s, ms[..|ms| - 1]), ms[|ms| - 1]);
    }
  }

  /** The phase never goes back over a session. */
  lemma {:induction false} RunPhaseForward(s: Session, ms: seq<Message>)
    ensures Rank(s.phase) <= Rank(Run(s, ms).phase)
    decreases |ms|
  {
    if ms != [] {
      RunPhaseForward(s, ms[..|ms| - 1]);
      StepPhaseForward(Run(s, ms[..|ms| - 1]), ms[|ms| - 1]);
    }
  }

  /** Notifications are only ever appended, at most one per line. */
  lemma {:induction false} RunLogGrows(s: Session, ms: seq<Message>)
    ensures |s.sent| <= |Run(s, ms).sent| <= |s.sent| + |ms|
    ensures Run(s, ms).sent[..|s.sent|] == s.sent
    decreases |ms|
  {
    if ms != [] {
      var r := Run(s, ms[..|ms| - 1]);
      RunLogGrows(s, ms[..|ms| - 1]);
      assert Step(r, ms[|ms| - 1]).sent[..|r.sent|] == r.sent;
    }
  }

  /** A line repeated any number of times while receiving acts as once: a
      switch event delivered k times notifies at most once. */
  lemma {:induction false} RunRepeated(s: Session, m: Message, k: nat)
    requires s.phase == Receiving
    requires k >= 1
    ensures Run(s, seq(k, _ => m)) == Step(s, m)
    decreases k
  {
    var ms := seq(k, _ => m);
    if k == 1 {
      assert ms[..0] == [];
    } else {
      assert ms[..k - 1] == seq(k - 1, _ => m);
      RunRepeated(s, m, k - 1);
      StepTwiceReceiving(s, m);
    }
  }

  /** A sample session: acknowledgement, snapshot of
      three layouts with index 1, then the switch to index 2 twice, then a
      switch out of range.  Exactly one notification, "fr", is sent. */
  lemma ExampleSession()
    ensures
      var snapshot := Parsed(false, Some(LayoutsChanged(Some(1), Some([Text("us"), Text("de"), Text("fr")]))), None);
      var toFr := Parsed(false, None, Some(LayoutSwitched(Some(2))));
      var tooFar := Parsed(false, None, Some(LayoutSwitched(Some(99))));
      Run(Initial(), [Unparsable, Parsed(true, None, None), snapshot, toFr, toFr, tooFar])
        == Session(Receiving, ["us", "de", "fr"], 2, ["fr"])
  {
    var snapshot := Parsed(false, Some(LayoutsChanged(Some(1), Some([Text("us"), Text("de"), Text("fr")]))), None);
    var toFr := Parsed(false, None, Some(LayoutSwitched(Some(2))));
    var tooFar := Parsed(false, None, Some(LayoutSwitched(Some(99))));
    var ms := [Unparsable, Parsed(true, None, None), snapshot, toFr, toFr, tooFar];
    StringNamesAllText([Text("us"), Text("de"), Text("fr")]);
    assert ms[..0] == [];
    assert Run(Initial(), ms[..1]) == Initial();
    assert ms[..2][..1] == ms[..1];
    assert Run(Initial(), ms[..2]) == Session(LayoutInit, [], 0, []);
    assert ms[..3][..2] == ms[..2];
    assert Run(Initial(), ms[..3]) == Session(Receiving, ["us", "de", "fr"], 1, []);
    assert ms[..4][..3] == ms[..3];
    assert Run(Initial(), ms[..4]) == Session(Receiving, ["us", "de", "fr"], 2, ["fr"]);
    assert ms[..5][..4] == ms[..4];
    assert Run(Initial(), ms[..5]) == Session(Receiving, ["us", "de", "fr"], 2, ["fr"]);
    assert ms[..5] == ms[..|ms| - 1];
  }

  // ---------------------------------------------------------------------
  // The program state as the source keeps it

  /** The state `process_line` updates through its pointer: the phase, the
      table `layouts` of which the first `n` entries are filled, the current
      index, and the log of notification bodies sent. */
  class ProgramState {
    var phase: Phase
    var layouts: array<string>
    var n: int
    var currentIdx: int
    var sent: seq<string>

    /** The filled part of the table lies within what was allocated, and it
        is empty until the snapshot arrives. */
    ghost predicate Valid()
      reads this
    {
      0 <= n <= layouts.Length && (phase != Receiving ==> n == 0)
    }

    /** The abstract session this state stands for. */
    function View(): Session
      reads this, layouts
      requires Valid()
    {
      Session(phase, layouts[..n], currentIdx, sent)
    }

    /** The zero-initialised state of `read_socket`, phase `Waiting`. */
    constructor ()
      ensures Valid() && View() == Initial()
    {
      phase := Waiting;
      layouts := new string[0];
      n := 0;
      currentIdx := 0;
      sent := [];
    }

    /** Handle one decoded line.  The snapshot's string names are copied one
        by one into a freshly allocated table as large as the array. */
    method ProcessLine(m: Message)
      requires Valid()
      modifies this
      ensures Valid()
      ensures View() == Step(old(View()), m)
    {
      if m.Unparsable? {
        return;
      }
      match phase {
        case Waiting =>
          if m.ok {
            phase := LayoutInit;
          }
        case LayoutInit =>
          if m.layoutsChanged.Some? {
            var c := m.layoutsChanged.value;
            phase := Receiving;
            if c.currentIdx.Some? {
              currentIdx := c.currentIdx.value;
            }
            if c.names.Some? {
              var names := c.names.value;
              var table := new string[|names|];
              layouts := table;
              var i := 0;
              while i < |names|
                invariant 0 <= i <= |names| == table.Length
                invariant layouts == table && phase == Receiving
                invariant currentIdx == old(View()).currentIdx || c.currentIdx.Some?
                invariant c.currentIdx.Some? ==> currentIdx == c.currentIdx.value
                invariant sent == old(sent)
                invariant 0 <= n <= i
                invariant table[..n] == StringNames(names[..i])
              {
                assert names[..i + 1][..i] == names[..i];
                if names[i].Text? {
                  table[n] := names[i].text;
                  n := n + 1;
                }
                i := i + 1;
              }
              assert names[..i] == names;
            }
          }
        case Receiving =>
          if m.layoutSwitched.Some? {
            var w := m.layoutSwitched.value;
            if w.idx.Some? {
              var newIdx := w.idx.value;
              if newIdx >= 0 && newIdx < n && currentIdx != newIdx {
                currentIdx := newIdx;
                sent := sent + [layouts[currentIdx]];
              }
            }
          }
      }
    }
  }
}

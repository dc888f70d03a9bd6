/** The receiving half of ftp.py (`as_server`): a three-state loop over the
    frames it receives, which writes into the destination folder and answers
    with b'OK' acknowledgements. */
module Receiver {
  import opened Wire
  import opened Paths

  /** The `state` variable of `as_server`: 0, 1 and 2. */
  datatype Phase = AwaitName | AwaitSize | AwaitData

  /** The destination folder: file path to file content. */
  type Destination = map<Text, seq<byte>>

  /** All the variables the receive loop keeps between two receives. */
  datatype Session = Session(
    state: Phase,
    fileName: Text,
    filePath: Text,
    fileSize: int,
    fileSizeRecv: nat,
    dest: Destination)

  /** What one received frame leads to: the acknowledgements sent back, the
      end of the session on 'EXIT', or the crash of a size frame `int()`
      cannot parse. */
  datatype Reply = Continue(sent: seq<Frame>) | Exit | Crash

  datatype Transition = Transition(next: Session, reply: Reply)

  /** The variables as `as_server` sets them before its loop. */
  function Initial(dest: Destination): Session {
    Session(AwaitName, "", "", 0, 0, dest)
  }

  /** The content at `path`, empty when there is no such file. */
  function Contents(dest: Destination, path: Text): seq<byte> {
    if path in dest then dest[path] else []
  }

  /** `with open(path, 'ab') as f: f.write(data)`: the file is created when
      missing, and `data` goes after whatever it held; no other file changes. */
  function Appended(dest: Destination, path: Text, data: seq<byte>): Destination {
    dest[path := Contents(dest, path) + data]
  }

  /** Two appends to one file are one append of both pieces. */
  lemma AppendedTwice(dest: Destination, path: Text, x: seq<byte>, y: seq<byte>)
    ensures Appended(Appended(dest, path, x), path, y) == Appended(dest, path, x + y)
  {
    assert Contents(dest, path) + x + y == Contents(dest, path) + (x + y);
  }

  /** The invariant the loop keeps: outside state 2 the byte counter is 0 and
      so is the size; in state 2 the size is not 0 and not yet reached. */
  predicate Consistent(s: Session) {
    match s.state
    case AwaitName => s.fileSize == 0 && s.fileSizeRecv == 0
    case AwaitSize => s.fileSize == 0 && s.fileSizeRecv == 0
    case AwaitData => s.fileSize != 0 && s.fileSizeRecv != s.fileSize
  }

  /** One iteration of the receive loop on the frame `frame`. */
  function Next(s: Session, frame: Frame): Transition {
    match s.state
    case AwaitName =>
      var name := DecodeText(frame);
      if name == EXIT then Transition(s.(fileName := name), Exit)
      else Transition(s.(state := AwaitSize, fileName := name, filePath := Join(FOLDER_RECV, name)),
                      Continue([OK]))
    case AwaitSize =>
      var parsed := ParseInt(DecodeText(frame));
      if parsed.None? then Transition(s, Crash)
      else if parsed.value != 0 then Transition(s.(state := AwaitData, fileSize := parsed.value), Continue([OK]))
      else Transition(s.(state := AwaitName, fileSize := 0, dest := Appended(s.dest, s.filePath, [])),
                      Continue([OK, OK]))
    case AwaitData =>
      var recv := s.fileSizeRecv + |frame|;
      var dest := Appended(s.dest, s.filePath, frame);
      if recv == s.fileSize then Transition(Session(AwaitName, "", "", 0, 0, dest), Continue([OK]))
      else Transition(s.(fileSizeRecv := recv, dest := dest), Continue([]))
  }

  /** How the receive loop ended, if it did. */
  datatype Stop = Waiting | Exited | Crashed

  /** The loop run over a sequence of frames: its variables afterwards, every
      acknowledgement sent, and whether it stopped. */
  datatype Trace = Trace(final: Session, sent: seq<Frame>, stop: Stop)

  function Run(s: Session, frames: seq<Frame>): Trace
    decreases |frames|
  {
    if frames == [] then Trace(s, [], Waiting)
    else
      var t := Next(s, frames[0]);
      match t.reply
      case Exit => Trace(t.next, [], Exited)
      case Crash => Trace(t.next, [], Crashed)
      case Continue(acks) =>
        var rest := Run(t.next, frames[1..]);
        Trace(rest.final, acks + rest.sent, rest.stop)
  }

  /** A trace with `acks` sent before it. */
  function Prefixed(acks: seq<Frame>, t: Trace): Trace {
    Trace(t.final, acks + t.sent, t.stop)
  }

  lemma PrefixedTwice(a: seq<Frame>, b: seq<Frame>, t: Trace)
    ensures Prefixed(a, Prefixed(b, t)) == Prefixed(a + b, t)
  {
    assert a + (b + t.sent) == (a + b) + t.sent;
  }

  /** The first frame of a run decides how it goes on. */
  lemma RunFirst(s: Session, frames: seq<Frame>)
    requires frames != []
    ensures var t := Next(s, frames[0]);
      Run(s, frames) == match t.reply
        case Exit => Trace(t.next, [], Exited)
        case Crash => Trace(t.next, [], Crashed)
        case Continue(acks) => Prefixed(acks, Run(t.next, frames[1..]))
  {
  }

  /* ---------------- one step, state by state ---------------- */

  /** The loop keeps its invariant. */
  lemma NextConsistent(s: Session, frame: Frame)
    requires Consistent(s)
    ensures Consistent(Next(s, frame).next)
  {
  }

  /** In state 0 any name but 'EXIT' is taken as the file name, its path is
      the name inside the receiving folder, one OK goes back and the size is
      expected next; nothing is written. */
  lemma NameFrame(s: Session, frame: Frame)
    requires s.state == AwaitName && DecodeText(frame) != EXIT
    ensures var t := Next(s, frame);
      && t.reply == Continue([OK])
      && t.next.state == AwaitSize
      && t.next.fileName == DecodeText(frame)
      && t.next.filePath == Join(FOLDER_RECV, DecodeText(frame))
      && t.next.dest == s.dest
  {
  }

  /** The session ends exactly on 'EXIT' in state 0, and ending it writes
      nothing. */
  lemma ExitFrame(s: Session, frame: Frame)
    ensures Next(s, frame).reply == Exit <==> s.state == AwaitName && DecodeText(frame) == EXIT
    ensures Next(s, frame).reply == Exit ==> Next(s, frame).next.dest == s.dest
  {
  }

  /** The receiver crashes exactly on a size frame that is not a decimal. */
  lemma CrashFrame(s: Session, frame: Frame)
    ensures Next(s, frame).reply == Crash <==> s.state == AwaitSize && ParseInt(DecodeText(frame)).None?
  {
  }

  /** A size of 0 creates the file if it is missing and leaves it as it is
      otherwise, sends two OKs and goes back to state 0 without entering
      state 2. */
  lemma ZeroSizeFrame(s: Session, frame: Frame)
    requires s.state == AwaitSize && ParseInt(DecodeText(frame)) == Some(0)
    ensures var t := Next(s, frame);
      && t.reply == Continue([OK, OK])
      && t.next.state == AwaitName
      && t.next.dest.Keys == s.dest.Keys + {s.filePath}
      && t.next.dest[s.filePath] == Contents(s.dest, s.filePath)
      && (forall p :: p in s.dest && p != s.filePath ==> t.next.dest[p] == s.dest[p])
  {
  }

  /** Any other size sends one OK and moves to state 2 with that size. */
  lemma NonZeroSizeFrame(s: Session, frame: Frame, size: int)
    requires s.state == AwaitSize && ParseInt(DecodeText(frame)) == Some(size) && size != 0
    ensures var t := Next(s, frame);
      && t.reply == Continue([OK])
      && t.next.state == AwaitData
      && t.next.fileSize == size
      && t.next.dest == s.dest
  {
  }

  /** In state 2 the frame is appended to the file and counted; exactly when
      the count reaches the size one OK is sent and every variable but the
      destination is reset, otherwise nothing is sent and state 2 goes on. */
  lemma DataFrame(s: Session, frame: Frame)
    requires s.state == AwaitData
    ensures var t := Next(s, frame);
      var done := s.fileSizeRecv + |frame| == s.fileSize;
      && t.next.dest == Appended(s.dest, s.filePath, frame)
      && (t.reply == Continue([OK]) <==> done)
      && (t.reply == Continue([]) <==> !done)
      && (done ==> t.next == Initial(t.next.dest))
      && (!done ==> t.next.state == AwaitData && t.next.fileSizeRecv == s.fileSizeRecv + |frame|)
  {
  }

  /* ---------------- runs of several frames ---------------- */

  /** Running over `a + b` is running over `a`, then over `b` from where `a`
      left the loop, if it is still waiting. */
  lemma {:induction false} RunAppend(s: Session, a: seq<Frame>, b: seq<Frame>)
    requires Run(s, a).stop == Waiting
    ensures var ta := Run(s, a);
      var tb := Run(ta.final, b);
      Run(s, a + b) == Trace(tb.final, ta.sent + tb.sent, tb.stop)
    decreases |a|
  {
    if a == [] {
      assert a + b == b;
    } else {
      var t := Next(s, a[0]);
      var ab := a + b;
      assert ab[0] == a[0] && ab[1..] == a[1..] + b;
      assert t.reply.Continue? && Run(s, a) == Prefixed(t.reply.sent, Run(t.next, a[1..]));
      assert Run(s, ab) == Prefixed(t.reply.sent, Run(t.next, a[1..] + b));
      RunAppend(t.next, a[1..], b);
      PrefixedTwice(t.reply.sent, Run(t.next, a[1..]).sent, Run(Run(s, a).final, b));
    }
  }

  /** While the file is not complete, state 2 appends every frame, in order,
      to what the file held before, counts their bytes, sends nothing, and
      changes no other file. */
  lemma {:induction false} DataRun(s: Session, frames: seq<Frame>)
    requires s.state == AwaitData
    requires forall k :: 0 < k <= |frames| ==> s.fileSizeRecv + |Flatten(frames[..k])| != s.fileSize
    ensures var t := Run(s, frames);
      && t.stop == Waiting && t.sent == []
      && t.final.state == AwaitData
      && t.final.fileSizeRecv == s.fileSizeRecv + |Flatten(frames)|
      && t.final.filePath == s.filePath && t.final.fileSize == s.fileSize
      && (frames != [] ==> t.final.dest == Appended(s.dest, s.filePath, Flatten(frames)))
      && (frames == [] ==> t.final.dest == s.dest)
    decreases |frames|
  {
    if frames != [] {
      var f := frames[0];
      assert frames[..1] == [f];
      assert Flatten([f]) == f + Flatten([]);
      var n := Next(s, f).next;
      var rest := frames[1..];
      forall k | 0 < k <= |rest|
        ensures n.fileSizeRecv + |Flatten(rest[..k])| != n.fileSize
      {
        assert frames[..k + 1] == [f] + rest[..k];
        assert frames[..k + 1][1..] == rest[..k];
      }
      DataRun(n, rest);
      assert Flatten(frames) == f + Flatten(rest);
      if rest != [] {
        AppendedTwice(s.dest, s.filePath, f, Flatten(rest));
      } else {
        assert Flatten(frames) == f;
      }
    }
  }

  /** The frames of a file, delivered one receive each in state 2, complete it
      on the last frame: the file then holds its previous content followed by
      all the frames, exactly one OK has been sent, and the loop is back in
      state 0 with its variables reset. */
  lemma {:induction false} DataComplete(s: Session, frames: seq<Frame>)
    requires s.state == AwaitData && frames != []
    requires forall i :: 0 <= i < |frames| ==> |frames[i]| > 0
    requires s.fileSizeRecv + |Flatten(frames)| == s.fileSize
    ensures var t := Run(s, frames);
      && t.stop == Waiting && t.sent == [OK]
      && t.final == Initial(Appended(s.dest, s.filePath, Flatten(frames)))
    decreases |frames|
  {
    var f := frames[0];
    var rest := frames[1..];
    var n := Next(s, f).next;
    if rest == [] {
      assert Flatten(frames) == f;
    } else {
      assert |rest[0]| > 0;
      assert |Flatten(rest)| >= |rest[0]|;
      DataComplete(n, rest);
      AppendedTwice(s.dest, s.filePath, f, Flatten(rest));
    }
  }

  /** Once more bytes arrived in state 2 than the size announced, no frame
      ever completes the file: the loop stays in state 2 and never sends
      anything again. */
  lemma {:induction false} OvershootStuck(s: Session, frames: seq<Frame>)
    requires s.state == AwaitData && s.fileSizeRecv > s.fileSize
    ensures var t := Run(s, frames);
      t.stop == Waiting && t.sent == [] && t.final.state == AwaitData
    decreases |frames|
  {
    if frames != [] {
      OvershootStuck(Next(s, frames[0]).next, frames[1..]);
    }
  }

  /** `int` accepts a sign, so a negative size is taken: one OK goes back,
      state 2 is entered, and no frame ever completes the file. */
  lemma NegativeSizeStuck(s: Session, frame: Frame, rest: seq<Frame>)
    requires s.state == AwaitSize && s.fileSizeRecv == 0
    requires ParseInt(DecodeText(frame)).Some? && ParseInt(DecodeText(frame)).value < 0
    ensures var t := Run(s, [frame] + rest);
      t.stop == Waiting && t.sent == [OK] && t.final.state == AwaitData
  {
    var frames := [frame] + rest;
    assert frames[0] == frame && frames[1..] == rest;
    OvershootStuck(Next(s, frame).next, rest);
  }

  /* ---------------- the receive loop as a class ---------------- */

  /** The receiver with the variables of `as_server` as fields. */
  class Server {
    var state: Phase
    var fileName: Text
    var filePath: Text
    var fileSize: int
    var fileSizeRecv: nat
    var dest: Destination

    function Snapshot(): Session
      reads this
    {
      Session(state, fileName, filePath, fileSize, fileSizeRecv, dest)
    }

    predicate Valid()
      reads this
    {
      Consistent(Snapshot())
    }

    /** The set-up before the loop, over a destination folder as it is. */
    constructor (initial: Destination)
      ensures Valid()
      ensures Snapshot() == Initial(initial)
    {
      state, fileName, filePath := AwaitName, "", "";
      fileSize, fileSizeRecv := 0, 0;
      dest := initial;
    }

    /** One iteration of the `while True` loop on a received frame. */
    method Step(frame: Frame) returns (reply: Reply)
      requires Valid()
      modifies this
      ensures Valid()
      ensures Snapshot() == Next(old(Snapshot()), frame).next
      ensures reply == Next(old(Snapshot()), frame).reply
    {
      match state
      case AwaitName =>
        var name := DecodeText(frame);
        fileName := name;
        if name == EXIT {
          reply := Exit;
          return;
        }
        filePath := Join(FOLDER_RECV, name);
        reply := Continue([OK]);
        state := AwaitSize;
      case AwaitSize =>
        var parsed := ParseInt(DecodeText(frame));
        if parsed.None? {
          reply := Crash;
          return;
        }
        fileSize := parsed.value;
        var acks := [OK];
        if fileSize != 0 {
          state := AwaitData;
        } else {
          dest := Appended(dest, filePath, []);
          acks := acks + [OK];
          state := AwaitName;
        }
        reply := Continue(acks);
      case AwaitData =>
        dest := Appended(dest, filePath, frame);
        fileSizeRecv := fileSizeRecv + |frame|;
        if fileSizeRecv == fileSize {
          reply := Continue([OK]);
          fileName, filePath := "", "";
          fileSize, fileSizeRecv := 0, 0;
          state := AwaitName;
        } else {
          reply := Continue([]);
        }
    }

    /** The receive loop over the frames that arrive, until 'EXIT', a crash,
        or the last frame. */
    method Serve(frames: seq<Frame>) returns (sent: seq<Frame>, stop: Stop)
      requires Valid()
      modifies this
      ensures Valid()
      ensures Trace(Snapshot(), sent, stop) == Run(old(Snapshot()), frames)
    {
      ghost var whole := Run(Snapshot(), frames);
      sent, stop := [], Waiting;
      var i := 0;
      while i < |frames| && stop == Waiting
        invariant 0 <= i <= |frames|
        invariant Valid()
        invariant stop == Waiting ==> whole == Prefixed(sent, Run(Snapshot(), frames[i..]))
        invariant stop != Waiting ==> whole == Trace(Snapshot(), sent, stop)
        decreases |frames| - i, if stop == Waiting then 1 else 0
      {
        ghost var before := Snapshot();
        RunFirst(before, frames[i..]);
        assert frames[i..][0] == frames[i] && frames[i..][1..] == frames[i + 1..];
        var reply := Step(frames[i]);
        match reply
        case Exit =>
          stop := Exited;
        case Crash =>
          stop := Crashed;
        case Continue(acks) =>
          PrefixedTwice(sent, acks, Run(Snapshot(), frames[i + 1..]));
          sent := sent + acks;
          i := i + 1;
      }
      if stop == Waiting {
        assert frames[i..] == [];
      }
    }
  }
}

/** What the two halves of ftp.py do together, assuming every send of the
    sender arrives as exactly one receive on the receiver: the frames of a
    file, fed to a receiver waiting for a name, put the file's bytes into the
    receiving folder under its base name and draw three OKs, the number of
    acknowledgements the sender reads. */
module Transfer {
  import opened Wire
  import opened Paths
  import opened Sender
  import opened Receiver

  /** Where the receiver writes a file it is sent. */
  function Target(f: SourceFile): Text {
    Join(FOLDER_RECV, Basename(f.path))
  }

  /** The destination after each file of `files` has been appended, in order,
      at its target. */
  function Deliver(dest: Destination, files: seq<SourceFile>): Destination {
    if files == [] then dest
    else
      var last := files[|files| - 1];
      Appended(Deliver(dest, files[..|files| - 1]), Target(last), last.content)
  }

  predicate AllOk(acks: seq<Frame>) {
    forall i :: 0 <= i < |acks| ==> acks[i] == OK
  }

  lemma AllOkAppend(a: seq<Frame>, b: seq<Frame>)
    requires AllOk(a) && AllOk(b)
    ensures AllOk(a + b)
  {
    forall i | 0 <= i < |a + b| ensures (a + b)[i] == OK {
      if i >= |a| {
        assert (a + b)[i] == b[i - |a|];
      }
    }
  }

  lemma AllOkThree()
    ensures AllOk([OK, OK, OK])
  {
    var acks := [OK, OK, OK];
    forall i | 0 <= i < 3 ensures acks[i] == OK {
    }
  }

  /** The name frame of a file that is not called 'EXIT'. */
  lemma RunNameFrame(s: Session, name: Text, rest: seq<Frame>)
    requires s.state == AwaitName && name != EXIT
    ensures Run(s, [EncodeText(name)] + rest) ==
      Prefixed([OK], Run(s.(state := AwaitSize, fileName := name, filePath := Join(FOLDER_RECV, name)), rest))
  {
    DecodeEncode(name);
    var frames := [EncodeText(name)] + rest;
    assert frames[1..] == rest;
    RunFirst(s, frames);
  }

  /** The size frame `str(size)`. */
  lemma RunSizeFrame(s: Session, size: nat, rest: seq<Frame>)
    requires s.state == AwaitSize
    ensures Run(s, [EncodeText(ShowNat(size))] + rest) ==
      if size == 0 then Prefixed([OK, OK], Run(s.(state := AwaitName, fileSize := 0, dest := Appended(s.dest, s.filePath, [])), rest))
      else Prefixed([OK], Run(s.(state := AwaitData, fileSize := size), rest))
  {
    DecodeEncode(ShowNat(size));
    ParseShow(size);
    var frames := [EncodeText(ShowNat(size))] + rest;
    assert frames[1..] == rest;
    RunFirst(s, frames);
  }

  /** The name frame of a file: one OK, and the size is expected next. */
  lemma RunFileHeader(s: Session, f: SourceFile)
    requires s.state == AwaitName
    requires Basename(f.path) != EXIT
    ensures Run(s, EncodeFile(f)) ==
      Prefixed([OK], Run(s.(state := AwaitSize, fileName := Basename(f.path), filePath := Target(f)),
                         [EncodeText(ShowNat(|f.content|))] + Chunks(f.content)))
  {
    var sizeAndData := [EncodeText(ShowNat(|f.content|))] + Chunks(f.content);
    assert EncodeFile(f) == [EncodeText(Basename(f.path))] + sizeAndData;
    RunNameFrame(s, Basename(f.path), sizeAndData);
  }

  /** The size and data frames of an empty file: two OKs, and the target is
      created if missing. */
  lemma ReceiveEmptyData(s: Session, content: seq<byte>)
    requires s.state == AwaitSize && s.fileSize == 0 && s.fileSizeRecv == 0 && content == []
    ensures Run(s, [EncodeText(ShowNat(|content|))] + Chunks(content)) ==
      Trace(s.(state := AwaitName, dest := Appended(s.dest, s.filePath, content)), [OK, OK], Waiting)
  {
    RunSizeFrame(s, 0, []);
  }

  /** The size and data frames of a non-empty file: two OKs, the content
      appended at the target, and every variable reset. */
  lemma ReceiveContentData(s: Session, content: seq<byte>)
    requires s.state == AwaitSize && s.fileSizeRecv == 0 && content != []
    ensures Run(s, [EncodeText(ShowNat(|content|))] + Chunks(content)) ==
      Trace(Initial(Appended(s.dest, s.filePath, content)), [OK, OK], Waiting)
  {
    var chunks := Chunks(content);
    RunSizeFrame(s, |content|, chunks);
    ChunksSpec(content);
    var s2 := s.(state := AwaitData, fileSize := |content|);
    DataComplete(s2, chunks);
  }

  /** What receiving one file leaves behind: the loop is waiting in state 0
      again, three OKs went back, and the file's bytes follow whatever its
      target held (nothing, when it did not exist). */
  predicate Received(s: Session, f: SourceFile, t: Trace) {
    && t.stop == Waiting
    && t.sent == [OK, OK, OK]
    && t.final.state == AwaitName && Consistent(t.final)
    && t.final.dest == Appended(s.dest, Target(f), f.content)
  }

  lemma ReceiveEmptyFile(s: Session, f: SourceFile)
    requires s.state == AwaitName && s.fileSize == 0 && s.fileSizeRecv == 0
    requires Basename(f.path) != EXIT && f.content == []
    ensures Run(s, EncodeFile(f)) ==
      Trace(s.(fileName := Basename(f.path), filePath := Target(f), dest := Appended(s.dest, Target(f), f.content)),
            [OK, OK, OK], Waiting)
  {
    var s1 := s.(state := AwaitSize, fileName := Basename(f.path), filePath := Target(f));
    RunFileHeader(s, f);
    ReceiveEmptyData(s1, f.content);
  }

  lemma ReceiveNonEmptyFile(s: Session, f: SourceFile)
    requires s.state == AwaitName && s.fileSizeRecv == 0
    requires Basename(f.path) != EXIT && f.content != []
    ensures Run(s, EncodeFile(f)) == Trace(Initial(Appended(s.dest, Target(f), f.content)), [OK, OK, OK], Waiting)
  {
    var s1 := s.(state := AwaitSize, fileName := Basename(f.path), filePath := Target(f));
    RunFileHeader(s, f);
    ReceiveContentData(s1, f.content);
  }

  /** One file, from the name to the last chunk, empty or not. */
  lemma ReceiveFile(s: Session, f: SourceFile)
    requires s.state == AwaitName && Consistent(s)
    requires Basename(f.path) != EXIT && ProperName(Basename(f.path))
    ensures Received(s, f, Run(s, EncodeFile(f)))
  {
    if f.content == [] {
      ReceiveEmptyFile(s, f);
    } else {
      ReceiveNonEmptyFile(s, f);
    }
  }

  /** One more file after a run that left the receiver waiting for a name. */
  lemma ReceiveOneMore(s: Session, a: seq<Frame>, f: SourceFile)
    requires Run(s, a).stop == Waiting
    requires Run(s, a).final.state == AwaitName && Consistent(Run(s, a).final)
    requires Basename(f.path) != EXIT && ProperName(Basename(f.path))
    ensures var ta := Run(s, a);
      var t := Run(s, a + EncodeFile(f));
      && t.stop == Waiting
      && t.sent == ta.sent + [OK, OK, OK]
      && t.final.state == AwaitName && Consistent(t.final)
      && t.final.dest == Appended(ta.final.dest, Target(f), f.content)
  {
    var ta := Run(s, a);
    ReceiveFile(ta.final, f);
    RunAppend(s, a, EncodeFile(f));
  }

  /** A list of files sent one after the other: every file lands at its
      target in order, and the receiver sends three OKs per file, as many as
      the sender reads. */
  lemma {:induction false} ReceiveFiles(s: Session, files: seq<SourceFile>)
    requires s.state == AwaitName && Consistent(s)
    requires forall i :: 0 <= i < |files| ==> Basename(files[i].path) != EXIT && ProperName(Basename(files[i].path))
    ensures var t := Run(s, EncodeFiles(files));
      && t.stop == Waiting
      && |t.sent| == 3 * |files| && AllOk(t.sent)
      && t.final.state == AwaitName && Consistent(t.final)
      && t.final.dest == Deliver(s.dest, files)
    decreases |files|
  {
    if files != [] {
      var init := files[..|files| - 1];
      var last := files[|files| - 1];
      var a := EncodeFiles(init);
      assert EncodeFiles(files) == a + EncodeFile(last);
      ReceiveFiles(s, init);
      ReceiveOneMore(s, a, last);
      var sent := Run(s, a).sent;
      assert AllOk(sent + [OK, OK, OK]) by {
        AllOkThree();
        AllOkAppend(sent, [OK, OK, OK]);
      }
    }
  }

  /** Files with different base names are written to different targets. */
  lemma TargetInjective(f: SourceFile, g: SourceFile)
    requires Basename(f.path) != Basename(g.path)
    ensures Target(f) != Target(g)
  {
    BasenameSpec(f.path);
    BasenameSpec(g.path);
    JoinRecvInjective(Basename(f.path), Basename(g.path));
  }

  /** Appending to a file that does not exist yet creates it with exactly
      the appended bytes and adds nothing else. */
  lemma AppendedFresh(dest: Destination, path: Text, data: seq<byte>)
    requires path !in dest
    ensures var r := Appended(dest, path, data);
      && path in r && r[path] == data
      && (forall p :: p in dest ==> p in r && r[p] == dest[p])
      && (forall p :: p in r ==> p in dest || p == path)
  {
  }

  /** The destination after appending each `(path, bytes)` write in order. */
  function AppendAll(dest: Destination, writes: seq<(Text, seq<byte>)>): Destination {
    if writes == [] then dest
    else
      var last := writes[|writes| - 1];
      Appended(AppendAll(dest, writes[..|writes| - 1]), last.0, last.1)
  }

  /** Writes to distinct paths that do not exist yet: each path ends up
      holding exactly its bytes, and nothing else is added or changed. */
  lemma {:induction false} AppendAllDistinct(dest: Destination, writes: seq<(Text, seq<byte>)>)
    requires forall i, j :: 0 <= i < j < |writes| ==> writes[i].0 != writes[j].0
    requires forall i :: 0 <= i < |writes| ==> writes[i].0 !in dest
    ensures var r := AppendAll(dest, writes);
      && (forall i :: 0 <= i < |writes| ==> writes[i].0 in r && r[writes[i].0] == writes[i].1)
      && (forall p :: p in dest ==> p in r && r[p] == dest[p])
      && (forall p :: p in r ==> p in dest || exists i :: 0 <= i < |writes| && p == writes[i].0)
    decreases |writes|
  {
    if writes != [] {
      var n := |writes| - 1;
      var init := writes[..n];
      var last := writes[n];
      AppendAllDistinct(dest, init);
      var r0 := AppendAll(dest, init);
      var r := AppendAll(dest, writes);
      assert last.0 !in r0 by {
        forall i | 0 <= i < n
          ensures init[i].0 != last.0
        {
          assert init[i] == writes[i];
        }
      }
      AppendedFresh(r0, last.0, last.1);
      forall i | 0 <= i < |writes|
        ensures writes[i].0 in r && r[writes[i].0] == writes[i].1
      {
        if i < n {
          assert writes[i] == init[i];
        }
      }
      forall p | p in r
        ensures p in dest || exists i :: 0 <= i < |writes| && p == writes[i].0
      {
        if p != last.0 && p !in dest {
          var i :| 0 <= i < n && p == init[i].0;
          assert writes[i] == init[i];
        }
      }
    }
  }

  /** The writes the receiver performs for a list of files. */
  function Writes(files: seq<SourceFile>): (ws: seq<(Text, seq<byte>)>)
    ensures |ws| == |files|
    ensures forall i :: 0 <= i < |files| ==> ws[i] == (Target(files[i]), files[i].content)
  {
    seq(|files|, i requires 0 <= i < |files| => (Target(files[i]), files[i].content))
  }

  lemma {:induction false} DeliverWrites(dest: Destination, files: seq<SourceFile>)
    ensures Deliver(dest, files) == AppendAll(dest, Writes(files))
    decreases |files|
  {
    if files != [] {
      var n := |files| - 1;
      DeliverWrites(dest, files[..n]);
      assert Writes(files)[..n] == Writes(files[..n]);
    }
  }

  /** When the targets are distinct and none exists yet, each of them ends up
      holding exactly its file's bytes, and nothing else is added or changed. */
  lemma DeliverDistinct(dest: Destination, files: seq<SourceFile>)
    requires forall i :: 0 <= i < |files| ==> ProperName(Basename(files[i].path))
    requires forall i, j :: 0 <= i < j < |files| ==> Basename(files[i].path) != Basename(files[j].path)
    requires forall i :: 0 <= i < |files| ==> Target(files[i]) !in dest
    ensures var r := Deliver(dest, files);
      && (forall i :: 0 <= i < |files| ==> Target(files[i]) in r && r[Target(files[i])] == files[i].content)
      && (forall p :: p in dest ==> p in r && r[p] == dest[p])
      && (forall p :: p in r ==> p in dest || exists i :: 0 <= i < |files| && p == Target(files[i]))
  {
    var ws := Writes(files);
    forall i, j | 0 <= i < j < |ws| ensures ws[i].0 != ws[j].0 {
      TargetInjective(files[i], files[j]);
    }
    forall i | 0 <= i < |ws| ensures ws[i].0 !in dest {
      assert ws[i].0 == Target(files[i]);
    }
    AppendAllDistinct(dest, ws);
    DeliverWrites(dest, files);
    var r := Deliver(dest, files);
    forall i | 0 <= i < |files|
      ensures Target(files[i]) in r && r[Target(files[i])] == files[i].content
    {
      assert ws[i] == (Target(files[i]), files[i].content);
    }
    forall p | p in r
      ensures p in dest || exists i :: 0 <= i < |files| && p == Target(files[i])
    {
      if p !in dest {
        var i :| 0 <= i < |ws| && p == ws[i].0;
        assert p == Target(files[i]);
      }
    }
  }

  /** The session the sender ends with 'EXIT' (ftp.py:136): every file lands,
      then the receiver stops without writing anything more. */
  lemma ReceiveThenExit(s: Session, files: seq<SourceFile>)
    requires s.state == AwaitName && Consistent(s)
    requires forall i :: 0 <= i < |files| ==> Basename(files[i].path) != EXIT && ProperName(Basename(files[i].path))
    ensures var t := Run(s, EncodeFiles(files) + [EncodeText(EXIT)]);
      && t.stop == Exited
      && |t.sent| == 3 * |files| && AllOk(t.sent)
      && t.final.dest == Deliver(s.dest, files)
  {
    ReceiveFiles(s, files);
    var ta := Run(s, EncodeFiles(files));
    RunAppend(s, EncodeFiles(files), [EncodeText(EXIT)]);
    DecodeEncode(EXIT);
    assert ta.sent + [] == ta.sent;
  }

  /** A file whose base name is 'EXIT' is never written: its name frame ends
      the receiver's session, and the sender's size and data frames are not
      read any more. */
  lemma ExitNamedFile(s: Session, f: SourceFile)
    requires s.state == AwaitName
    requires Basename(f.path) == EXIT
    ensures var t := Run(s, EncodeFile(f));
      t.stop == Exited && t.sent == [] && t.final.dest == s.dest
  {
    DecodeEncode(EXIT);
    RunFirst(s, EncodeFile(f));
  }

  /** From the path typed on the sender to the receiving folder: a regular
      file, whatever quotes surround its path, arrives byte for byte under
      its base name, provided the target did not exist yet. */
  lemma SendRegularFile(arg: Text, fs: FileSystem, dest: Destination)
    requires StripQuotes(arg) in fs && fs[StripQuotes(arg)].RegularFile?
    requires Basename(StripQuotes(arg)) != EXIT && ProperName(Basename(StripQuotes(arg)))
    requires Join(FOLDER_RECV, Basename(StripQuotes(arg))) !in dest
    ensures var t := Run(Initial(dest), EncodeFiles(FileList(StripQuotes(arg), fs)));
      && t.stop == Waiting && t.sent == [OK, OK, OK]
      && Join(FOLDER_RECV, Basename(StripQuotes(arg))) in t.final.dest
      && t.final.dest[Join(FOLDER_RECV, Basename(StripQuotes(arg)))] == fs[StripQuotes(arg)].content
      && (forall p :: p in dest ==> p in t.final.dest && t.final.dest[p] == dest[p])
  {
    var path := StripQuotes(arg);
    var f := SourceFile(path, fs[path].content);
    FileListRegular(path, fs);
    ReceiveFile(Initial(dest), f);
  }

  /** A path that does not exist sends nothing, so the receiver sees nothing. */
  lemma SendMissingPath(arg: Text, fs: FileSystem, s: Session)
    requires StripQuotes(arg) !in fs
    ensures Run(s, EncodeFiles(FileList(StripQuotes(arg), fs))) == Trace(s, [], Waiting)
  {
  }
}

/** The sending half of ftp.py (`send_file`): which files a typed path stands
    for, and the frames sent for each of them together with the number of
    acknowledgements read back. */
module Sender {
  import opened Wire
  import opened Paths

  /** A file to send: the path it is read from and its bytes. */
  datatype SourceFile = SourceFile(path: Text, content: seq<byte>)

  /** What the sender's filesystem holds at a path.  For a directory the model
      takes the list `get_files` produces as given. */
  datatype Node = RegularFile(content: seq<byte>) | Directory(listing: seq<SourceFile>)

  type FileSystem = map<Text, Node>

  /* ---------------- specification ---------------- */

  function Min(a: nat, b: nat): nat {
    if a <= b then a else b
  }

  /** The successive results of `f.read(BUFFER_SIZE)` until it returns b''. */
  function Chunks(data: seq<byte>): seq<Frame>
    decreases |data|
  {
    if data == [] then []
    else
      var n := Min(BUFFER_SIZE, |data|);
      [data[..n]] + Chunks(data[n..])
  }

  /** The frames `send_file` sends for one file: its base name, its size in
      decimal, then its content chunk by chunk. */
  function EncodeFile(f: SourceFile): seq<Frame> {
    [EncodeText(Basename(f.path)), EncodeText(ShowNat(|f.content|))] + Chunks(f.content)
  }

  /** The frames sent for a list of files, one file after the other. */
  function EncodeFiles(files: seq<SourceFile>): seq<Frame> {
    if files == [] then []
    else EncodeFiles(files[..|files| - 1]) + EncodeFile(files[|files| - 1])
  }

  /** The file list `send_file` works through for an already cleaned path:
      nothing for a missing path, the file itself for a regular file, the
      directory's listing otherwise. */
  function FileList(path: Text, fs: FileSystem): seq<SourceFile> {
    if path !in fs then []
    else match fs[path]
      case RegularFile(content) => [SourceFile(path, content)]
      case Directory(listing) => listing
  }

  /* ---------------- properties ---------------- */

  /** Every chunk is non-empty and at most BUFFER_SIZE long, every chunk but
      the last is exactly BUFFER_SIZE long, and the chunks put back together
      are the file's bytes. */
  lemma {:induction false} ChunksSpec(data: seq<byte>)
    ensures var cs := Chunks(data);
      && Flatten(cs) == data
      && (forall i :: 0 <= i < |cs| ==> 0 < |cs[i]| <= BUFFER_SIZE)
      && (forall i :: 0 <= i < |cs| - 1 ==> |cs[i]| == BUFFER_SIZE)
    decreases |data|
  {
    if data != [] {
      var n := Min(BUFFER_SIZE, |data|);
      var cs := Chunks(data);
      ChunksSpec(data[n..]);
      assert cs[1..] == Chunks(data[n..]);
      assert data == data[..n] + data[n..];
      forall i | 0 <= i < |cs| - 1 ensures |cs[i]| == BUFFER_SIZE {
        if i > 0 {
          assert cs[i] == cs[1..][i - 1];
        } else {
          assert |data[n..]| > 0;
        }
      }
    }
  }

  /** An empty file is sent without any data frame, a non-empty one with at
      least one. */
  lemma ChunksEmpty(data: seq<byte>)
    ensures Chunks(data) == [] <==> data == []
  {
  }

  /** The number of data frames is the size divided by BUFFER_SIZE, rounded up. */
  lemma {:induction false} ChunksCount(data: seq<byte>)
    ensures |Chunks(data)| == (|data| + BUFFER_SIZE - 1) / BUFFER_SIZE
    decreases |data|
  {
    if data != [] {
      var n := Min(BUFFER_SIZE, |data|);
      ChunksCount(data[n..]);
    }
  }

  lemma EncodeFilesSnoc(files: seq<SourceFile>, k: nat)
    requires k < |files|
    ensures EncodeFiles(files[..k + 1]) == EncodeFiles(files[..k]) + EncodeFile(files[k])
  {
    assert files[..k + 1][..k] == files[..k];
  }

  /** A path that does not exist sends nothing. */
  lemma FileListMissing(path: Text, fs: FileSystem)
    requires path !in fs
    ensures FileList(path, fs) == [] && EncodeFiles(FileList(path, fs)) == []
  {
  }

  /** A regular file is sent on its own, under its own path. */
  lemma FileListRegular(path: Text, fs: FileSystem)
    requires path in fs && fs[path].RegularFile?
    ensures FileList(path, fs) == [SourceFile(path, fs[path].content)]
    ensures EncodeFiles(FileList(path, fs)) == EncodeFile(SourceFile(path, fs[path].content))
  {
    var f := SourceFile(path, fs[path].content);
    assert [f][..0] == [];
  }

  /* ---------------- the sending loops ---------------- */

  /** The bytes `f.read(BUFFER_SIZE)` returns when the file position is `pos`. */
  function Read(content: seq<byte>, pos: nat): (data: Frame)
    requires pos <= |content|
    ensures |data| == Min(BUFFER_SIZE, |content| - pos)
    ensures data == content[pos..pos + |data|]
  {
    content[pos..pos + Min(BUFFER_SIZE, |content| - pos)]
  }

  /** One read of a non-empty remainder yields the next chunk. */
  lemma ChunksStep(content: seq<byte>, pos: nat)
    requires pos < |content|
    ensures Chunks(content[pos..]) == [Read(content, pos)] + Chunks(content[pos + |Read(content, pos)|..])
  {
    var data := Read(content, pos);
    assert content[pos..][..|data|] == data;
    assert content[pos..][|data|..] == content[pos + |data|..];
  }

  /** The `while True` loop of `send_file`: read BUFFER_SIZE bytes at a time
      and send each read until one comes back empty. */
  method SendChunks(content: seq<byte>) returns (sent: seq<Frame>)
    ensures sent == Chunks(content)
  {
    sent := [];
    var pos := 0;
    while true
      invariant pos <= |content|
      invariant sent + Chunks(content[pos..]) == Chunks(content)
      decreases |content| - pos
    {
      var data := Read(content, pos);
      if data == [] {
        break;
      }
      ChunksStep(content, pos);
      assert (sent + [data]) + Chunks(content[pos + |data|..]) == sent + Chunks(content[pos..]);
      sent := sent + [data];
      pos := pos + |data|;
    }
    assert content[pos..] == [];
  }

  /** The body of the loop over `file_list` in `send_file` for one file: send
      the name, read an ack, send the size, read an ack, send the chunks, read
      one last ack. */
  method SendOne(f: SourceFile) returns (sent: seq<Frame>, ackReads: nat)
    ensures sent == EncodeFile(f)
    ensures ackReads == 3
  {
    sent := [EncodeText(Basename(f.path))];
    ackReads := 1;
    sent := sent + [EncodeText(ShowNat(|f.content|))];
    ackReads := ackReads + 1;
    var chunks := SendChunks(f.content);
    sent := sent + chunks;
    ackReads := ackReads + 1;
  }

  /** The loop over `file_list` in `send_file`. */
  method SendFiles(files: seq<SourceFile>) returns (sent: seq<Frame>, ackReads: nat)
    ensures sent == EncodeFiles(files)
    ensures ackReads == 3 * |files|
  {
    sent, ackReads := [], 0;
    for k := 0 to |files|
      invariant sent == EncodeFiles(files[..k])
      invariant ackReads == 3 * k
    {
      var frames, acks := SendOne(files[k]);
      EncodeFilesSnoc(files, k);
      sent := sent + frames;
      ackReads := ackReads + acks;
    }
    assert files[..|files|] == files;
  }

  /** `send_file(file_path, ...)`: clean the typed path, pick the files it
      stands for, and send them. */
  method SendFile(arg: Text, fs: FileSystem) returns (sent: seq<Frame>, ackReads: nat)
    ensures sent == EncodeFiles(FileList(StripQuotes(arg), fs))
    ensures ackReads == 3 * |FileList(StripQuotes(arg), fs)|
    ensures StripQuotes(arg) !in fs ==> sent == [] && ackReads == 0
    ensures StripQuotes(arg) in fs && fs[StripQuotes(arg)].RegularFile? ==>
      sent == EncodeFile(SourceFile(StripQuotes(arg), fs[StripQuotes(arg)].content)) && ackReads == 3
  {
    var path := StripQuotes(arg);
    var files := FileList(path, fs);
    if path in fs && fs[path].RegularFile? {
      FileListRegular(path, fs);
    }
    sent, ackReads := SendFiles(files);
  }
}

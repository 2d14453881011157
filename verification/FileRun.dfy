// Runs of read and write calls on any set of open files.
module FileRun {
  import opened BlockCache
  import opened FileBytes
  import opened Files
  import opened Layout

  datatype Call = Write(fd: nat, bytes: seq<byte>) | Read(fd: nat, size: nat)

  // Result, and for a read the bytes it delivered.
  datatype Reply = Reply(r: int, bytes: seq<byte>)

  // What the callers see: the inode and the cursor of each descriptor, what each file holds, and
  // the number of free blocks; and which form fs.c:991 has.
  datatype State = State(repaired: bool, inode: seq<Inode?>, off: seq<nat>, text: map<Inode, seq<byte>>, free: nat)

  ghost predicate WellFormed(s: State) {
    && |s.inode| == |s.off|
    && (forall i :: 0 <= i < |s.inode| && s.inode[i] != null ==> s.inode[i] in s.text)
  }

  // A write succeeds while the file stays within NDATA blocks, a read while the file is long
  // enough.
  ghost predicate Succeeds(s: State, c: Call)
    requires WellFormed(s)
  {
    c.fd < |s.inode| && s.inode[c.fd] != null &&
    var text := s.text[s.inode[c.fd]];
    match c
    case Write(_, bytes) => |text| / BSIZE + NewBlocks(s.repaired, |text|, |bytes|) < NDATA
    case Read(fd, size) => s.off[fd] + size <= |text|
  }

  ghost function After(s: State, c: Call): (r: State)
    requires WellFormed(s)
    ensures WellFormed(r) && |r.inode| == |s.inode|
  {
    if !Succeeds(s, c) then s
    else
      match c
      case Write(fd, bytes) =>
        var text := s.text[s.inode[fd]];
        var need := NewBlocks(s.repaired, |text|, |bytes|);
        s.(text := s.text[s.inode[fd] := text + bytes], free := if need <= s.free then s.free - need else 0)
      case Read(fd, size) => s.(off := s.off[fd := s.off[fd] + size])
  }

  ghost function Answer(s: State, c: Call): Reply
    requires WellFormed(s)
  {
    if !Succeeds(s, c) then Reply(-1, [])
    else
      match c
      case Write(_, bytes) => Reply(|bytes|, [])
      case Read(fd, size) => Reply(size, s.text[s.inode[fd]][s.off[fd]..s.off[fd] + size])
  }

  // Where the file system does what it should: the descriptor exists, a write that succeeds finds
  // the blocks it needs and, the comparison at fs.c:991 as written, does not exactly fill its last
  // one, and cursor and size of a read do not wrap around.
  ghost predicate Proper(s: State, c: Call)
    requires WellFormed(s)
  {
    c.fd < |s.inode| &&
    match c
    case Write(fd, bytes) =>
      Succeeds(s, c) ==>
        var text := s.text[s.inode[fd]];
        && NewBlocks(s.repaired, |text|, |bytes|) <= s.free
        && (s.repaired || |bytes| != BSIZE - |text| % BSIZE)
    case Read(fd, size) => s.off[fd] + size < 0x1_0000_0000
  }

  // ---- the file system does what the calls say

  ghost predicate FilesOk(f: FileSystem)
    reads f.cache, f.inodes, f.fds
  {
    f.Valid() && forall i, j :: 0 <= i < j < |f.fds| ==> f.fds[i] != f.fds[j]
  }

  ghost function StateOf(f: FileSystem): (s: State)
    requires f.Valid()
    reads f.cache, f.inodes, f.fds
    ensures WellFormed(s) && |s.inode| == |f.fds|
  {
    State(f.repaired, seq(|f.fds|, i requires 0 <= i < |f.fds| reads f.fds => f.fds[i].ind),
          seq(|f.fds|, i requires 0 <= i < |f.fds| reads f.fds => f.fds[i].off), f.View(), f.FreeBlocks())
  }

  lemma ViewSize(f: FileSystem, ind: Inode)
    requires f.Valid() && ind in f.inodes
    ensures |f.View()[ind]| == ind.size
  {
    assert MapOk(f.sb, f.cache.disk, ind.block, ind.size / BSIZE);
  }

  method ServeWrite(f: FileSystem, c: Call) returns (reply: Reply)
    requires FilesOk(f) && c.Write? && Proper(StateOf(f), c)
    modifies f.cache, f.inodes
    ensures FilesOk(f) && StateOf(f) == After(old(StateOf(f)), c) && reply == Answer(old(StateOf(f)), c)
  {
    hide Cache.Valid, FileSystem.Maps, FileSystem.MapsWith, Decode, Text, Free, NewBlocks;
    var src := new byte[|c.bytes|](i requires 0 <= i < |c.bytes| => c.bytes[i]);
    assert src[..] == c.bytes;
    if f.fds[c.fd].ind != null { ViewSize(f, f.fds[c.fd].ind); }
    var r := f.Write(c.fd, src, |c.bytes|);
    reply := Reply(r, []);
    assert src[..|c.bytes|] == c.bytes;
  }

  method ServeRead(f: FileSystem, c: Call) returns (reply: Reply)
    requires FilesOk(f) && c.Read? && Proper(StateOf(f), c)
    modifies f.cache, f.fds
    ensures FilesOk(f) && StateOf(f) == After(old(StateOf(f)), c) && reply == Answer(old(StateOf(f)), c)
  {
    hide Cache.Valid, FileSystem.Maps, FileSystem.MapsWith, Decode, Text, Free, NewBlocks;
    var dst := new byte[c.size](_ => 0);
    var r := f.Read(c.fd, dst, c.size);
    reply := Reply(r, if r == -1 then [] else dst[..]);
  }

  // ---- runs

  ghost function Run(s: State, calls: seq<Call>): (r: State)
    requires WellFormed(s)
    ensures WellFormed(r) && |r.inode| == |s.inode|
  {
    if calls == [] then s else After(Run(s, calls[..|calls| - 1]), calls[|calls| - 1])
  }

  ghost predicate AllProper(s: State, calls: seq<Call>)
    requires WellFormed(s)
  {
    forall k :: 0 <= k < |calls| ==> Proper(Run(s, calls[..k]), calls[k])
  }

  lemma RunNext(s: State, calls: seq<Call>, k: nat)
    requires WellFormed(s) && k < |calls|
    ensures Run(s, calls[..k + 1]) == After(Run(s, calls[..k]), calls[k])
  {
    assert calls[..k + 1][..k] == calls[..k];
  }

  // What the calls get, in order.
  ghost function Answers(s: State, calls: seq<Call>): (rs: seq<Reply>)
    requires WellFormed(s)
    ensures |rs| == |calls|
  {
    if calls == [] then []
    else
      var rest := calls[..|calls| - 1];
      Answers(s, rest) + [Answer(Run(s, rest), calls[|calls| - 1])]
  }

  lemma {:induction false} AnswersAt(s: State, calls: seq<Call>, k: nat)
    requires WellFormed(s) && k < |calls|
    ensures Answers(s, calls)[k] == Answer(Run(s, calls[..k]), calls[k])
    decreases |calls|
  {
    hide Answer, Run, WellFormed;
    if k < |calls| - 1 {
      AnswersAt(s, calls[..|calls| - 1], k);
      assert calls[..|calls| - 1][..k] == calls[..k];
    }
  }

  lemma AnswersNext(s: State, calls: seq<Call>, k: nat)
    requires WellFormed(s) && k < |calls|
    ensures Answers(s, calls[..k + 1]) == Answers(s, calls[..k]) + [Answer(Run(s, calls[..k]), calls[k])]
  {
    hide Answer, Run, WellFormed;
    assert calls[..k + 1][..k] == calls[..k];
  }

  lemma RunNone(s: State)
    requires WellFormed(s)
    ensures Run(s, []) == s && Answers(s, []) == []
  {
  }

  method Serve(f: FileSystem, c: Call) returns (reply: Reply)
    requires FilesOk(f) && Proper(StateOf(f), c)
    modifies f.cache, f.inodes, f.fds
    ensures FilesOk(f) && StateOf(f) == After(old(StateOf(f)), c) && reply == Answer(old(StateOf(f)), c)
  {
    hide StateOf, After, Answer, FileSystem.Valid, Proper;
    if c.Write? {
      reply := ServeWrite(f, c);
    } else {
      reply := ServeRead(f, c);
    }
  }

  // The file system over a run.
  method Replay(f: FileSystem, calls: seq<Call>) returns (replies: seq<Reply>)
    requires FilesOk(f) && AllProper(StateOf(f), calls)
    modifies f.cache, f.inodes, f.fds
    ensures FilesOk(f) && StateOf(f) == Run(old(StateOf(f)), calls)
    ensures replies == Answers(old(StateOf(f)), calls)
  {
    hide StateOf, Run, After, Answer, Answers, Proper, WellFormed, FileSystem.Valid;
    ghost var s := StateOf(f);
    RunNone(s);
    assert calls[..0] == [];
    replies := [];
    for k := 0 to |calls|
      invariant FilesOk(f) && StateOf(f) == Run(s, calls[..k])
      invariant replies == Answers(s, calls[..k])
    {
      var reply := Serve(f, calls[k]);
      RunNext(s, calls, k);
      AnswersNext(s, calls, k);
      replies := replies + [reply];
    }
    assert calls[..|calls|] == calls;
  }

  // ---- what a run means, in terms of the calls alone

  // The bytes of the successful writes to a file, in order.
  ghost function Written(s: State, calls: seq<Call>, ind: Inode): seq<byte>
    requires WellFormed(s)
  {
    if calls == [] then []
    else
      var rest, c := calls[..|calls| - 1], calls[|calls| - 1];
      Written(s, rest, ind) +
      if c.Write? && c.fd < |s.inode| && s.inode[c.fd] == ind && Answer(Run(s, rest), c).r != -1 then c.bytes else []
  }

  // The total size of the successful reads of a descriptor.
  ghost function Consumed(s: State, calls: seq<Call>, fd: nat): nat
    requires WellFormed(s)
  {
    if calls == [] then 0
    else
      var rest, c := calls[..|calls| - 1], calls[|calls| - 1];
      Consumed(s, rest, fd) + if c.Read? && c.fd == fd && Answer(Run(s, rest), c).r != -1 then c.size else 0
  }

  // A file holds what it first held and then all that was successfully written to it, and a cursor
  // is past all that was read through its descriptor; a call on another file changes neither.
  lemma {:induction false} RunIsLog(s: State, calls: seq<Call>)
    requires WellFormed(s)
    ensures Run(s, calls).repaired == s.repaired
    ensures Run(s, calls).inode == s.inode && Run(s, calls).text.Keys == s.text.Keys
    ensures forall a :: a in s.text ==> Run(s, calls).text[a] == s.text[a] + Written(s, calls, a)
    ensures forall i :: 0 <= i < |s.off| ==> Run(s, calls).off[i] == s.off[i] + Consumed(s, calls, i)
  {
    if calls != [] {
      hide Succeeds;
      var rest, c := calls[..|calls| - 1], calls[|calls| - 1];
      RunIsLog(s, rest);
      forall a | a in s.text
        ensures Run(s, calls).text[a] == s.text[a] + Written(s, calls, a)
      {
        LogNext(s, rest, c, a);
      }
    }
  }

  lemma LogNext(s: State, rest: seq<Call>, c: Call, a: Inode)
    requires WellFormed(s) && a in s.text
    requires Run(s, rest).inode == s.inode && Run(s, rest).text.Keys == s.text.Keys
    requires Run(s, rest).text[a] == s.text[a] + Written(s, rest, a)
    ensures
      After(Run(s, rest), c).text[a] == s.text[a] + (Written(s, rest, a) +
        if c.Write? && c.fd < |s.inode| && s.inode[c.fd] == a && Answer(Run(s, rest), c).r != -1 then c.bytes else [])
  {
    hide Run, Written;
  }

  // A read that succeeds delivers bytes [off, off + size) of what its file first held followed by
  // all earlier writes to it, and it succeeds exactly when there are that many.
  lemma ReadsWhatWasWritten(s: State, calls: seq<Call>, k: nat)
    requires WellFormed(s) && k < |calls| && calls[k].Read?
    ensures
      var c, before, reply := calls[k], calls[..k], Answers(s, calls)[k];
      if c.fd >= |s.inode| || s.inode[c.fd] == null then reply == Reply(-1, [])
      else
        var file := s.text[s.inode[c.fd]] + Written(s, before, s.inode[c.fd]);
        var off := s.off[c.fd] + Consumed(s, before, c.fd);
        if off + c.size > |file| then reply == Reply(-1, []) else reply == Reply(c.size, file[off..off + c.size])
  {
    hide Run, Written, Consumed, Answers;
    AnswersAt(s, calls, k);
    RunIsLog(s, calls[..k]);
  }

  // A write succeeds exactly while its file, as long as all earlier writes have made it, stays
  // within the blocks of its map.
  lemma WritesWhileRoom(s: State, calls: seq<Call>, k: nat)
    requires WellFormed(s) && k < |calls| && calls[k].Write?
    ensures
      var c, reply := calls[k], Answers(s, calls)[k];
      if c.fd >= |s.inode| || s.inode[c.fd] == null then reply == Reply(-1, [])
      else
        var len := |s.text[s.inode[c.fd]]| + |Written(s, calls[..k], s.inode[c.fd])|;
        if len / BSIZE + NewBlocks(s.repaired, len, |c.bytes|) >= NDATA then reply == Reply(-1, [])
        else reply == Reply(|c.bytes|, [])
  {
    hide Run, Written, Answers, NewBlocks;
    AnswersAt(s, calls, k);
    RunIsLog(s, calls[..k]);
  }

  // Reading all of a file that was empty returns the concatenation of the writes.
  lemma WholeFile(s: State, calls: seq<Call>, fd: nat)
    requires WellFormed(s) && fd < |s.inode| && s.inode[fd] != null
    requires s.text[s.inode[fd]] == [] && s.off[fd] == 0 && Consumed(s, calls, fd) == 0
    ensures
      var written := Written(s, calls, s.inode[fd]);
      Answer(Run(s, calls), Read(fd, |written|)) == Reply(|written|, written)
  {
    RunIsLog(s, calls);
  }
}

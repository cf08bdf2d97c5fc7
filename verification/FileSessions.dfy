/** Whole sessions on the file system class: what the methods do, call after call, is a run of the driver on values, and
    so answers as the map of files does. */
module FileSessions {
  import opened Bits
  import opened Options
  import opened DosNames
  import opened Volume
  import opened VolumeInvariant
  import opened FileSystem
  import opened Refinement

  ghost function Values(handles: seq<FileHandle>): (r: seq<Handle>)
    reads handles
    ensures |r| == |handles| && forall i | 0 <= i < |handles| :: r[i] == handles[i].Value()
  {
    if handles == [] then [] else Values(handles[..|handles| - 1]) + [handles[|handles| - 1].Value()]
  }

  predicate Separate(handles: seq<FileHandle>) {
    forall i, j | 0 <= i < j < |handles| :: handles[i] != handles[j]
  }

  ghost function SystemOf(fs: Fat12, handles: seq<FileHandle>): System
    reads fs, fs.fatBuffer, handles
  {
    System(fs.Now(), Values(handles))
  }

  method Read(fs: Fat12, handles: seq<FileHandle>, h: nat, size: u32) returns (bytes: seq<byte>)
    requires fs.Valid() && Separate(handles)
    modifies fs.sectorBuffer, handles
    ensures fs.Valid() && fs.Now() == old(fs.Now())
    ensures (SystemOf(fs, handles), Got(bytes)) == Step(fs.mount, old(SystemOf(fs, handles)), ReadOp(h, size))
  {
    hide ReadData, AfterRead;
    var buffer := new byte[size];
    var n;
    if h < |handles| {
      n := fs.ReadFile(handles[h], buffer, size);
      assert Values(handles) == old(Values(handles))[h := handles[h].Value()];
    } else {
      n := fs.ReadFile(null, buffer, size);
      assert Values(handles) == old(Values(handles));
    }
    bytes := buffer[..n];
  }

  method Write(fs: Fat12, handles: seq<FileHandle>, h: nat, data: seq<byte>) returns (count: int)
    requires fs.Valid() && Separate(handles)
    modifies fs.sectorBuffer, fs`disk, handles
    ensures fs.Valid() && fs.fatBuffer[..] == old(fs.fatBuffer[..])
    ensures (SystemOf(fs, handles), Put(count)) == Step(fs.mount, old(SystemOf(fs, handles)), WriteOp(h, data))
  {
    hide AfterWrite, Mounted;
    if h < |handles| {
      count := fs.WriteFile(handles[h], data);
      assert Values(handles) == old(Values(handles))[h := handles[h].Value()];
    } else {
      count := fs.WriteFile(null, data);
      assert Values(handles) == old(Values(handles));
    }
  }

  method Create(fs: Fat12, handles: seq<FileHandle>, filename: CString, size: u32, pageFree: bool) returns (code: int)
    requires fs.Valid() && Separate(handles)
    modifies fs.sectorBuffer, fs.fatBuffer, fs`disk
    ensures fs.Valid()
    ensures (SystemOf(fs, handles), Status(code))
         == Step(fs.mount, old(SystemOf(fs, handles)), CreateOp(filename, size, pageFree))
  {
    hide Volume.Create, ToDos, Mounted;
    code := fs.CreateFile(filename, size, pageFree);
    assert Values(handles) == old(Values(handles));
  }

  method Open(fs: Fat12, handles: seq<FileHandle>, filename: CString, pageFree: bool)
    returns (handles': seq<FileHandle>, ok: bool)
    requires fs.Valid() && Separate(handles)
    modifies fs.sectorBuffer
    ensures fs.Valid() && Separate(handles') && fresh(set h | h in handles' && h !in handles)
    ensures (SystemOf(fs, handles'), Handed(ok))
         == Step(fs.mount, old(SystemOf(fs, handles)), OpenOp(filename, pageFree))
  {
    hide Volume.Open, RootDir, ToDos, Mounted;
    var file := fs.OpenFile(filename, pageFree);
    handles', ok := handles, file != null;
    assert Values(handles) == old(Values(handles));
    if file != null {
      handles' := handles + [file];
      assert handles'[..|handles|] == handles;
    }
  }

  /** One call on the class, with the handles it has given out. */
  method Call(fs: Fat12, handles: seq<FileHandle>, op: Op) returns (handles': seq<FileHandle>, reply: Reply)
    requires fs.Valid() && Separate(handles)
    modifies fs.sectorBuffer, fs.fatBuffer, fs`disk, handles
    ensures fs.Valid() && Separate(handles') && fresh(set h | h in handles' && h !in handles)
    ensures (SystemOf(fs, handles'), reply) == Step(fs.mount, old(SystemOf(fs, handles)), op)
  {
    hide Step, SystemOf, Mounted;
    match op
    case CreateOp(filename, size, pageFree) =>
      var code := Create(fs, handles, filename, size, pageFree);
      handles', reply := handles, Status(code);
    case OpenOp(filename, pageFree) =>
      var ok;
      handles', ok := Open(fs, handles, filename, pageFree);
      reply := Handed(ok);
    case ReadOp(h, size) =>
      var bytes := Read(fs, handles, h, size);
      handles', reply := handles, Got(bytes);
    case WriteOp(h, data) =>
      var count := Write(fs, handles, h, data);
      handles', reply := handles, Put(count);
  }

  lemma RunStep(m: Volume.MountInfo, s: System, ops: seq<Op>, i: nat)
    requires Mounted(m, s.v) && i < |ops|
    ensures var (s', x) := Step(m, s, ops[i]);
            var (t, xs) := Run(m, s', ops[i + 1..]);
            Run(m, s, ops[i..]) == (t, [x] + xs)
  {
    hide Step;
    assert ops[i..][0] == ops[i] && ops[i..][1..] == ops[i + 1..];
  }

  /** A session: when its calls are proper, every reply is the map's, and the volume it leaves refines the map. */
  method Session(fs: Fat12, ops: seq<Op>, ghost a: Files) returns (handles: seq<FileHandle>, replies: seq<Reply>)
    requires fs.Valid()
    modifies fs.sectorBuffer, fs.fatBuffer, fs`disk
    ensures fs.Valid() && Separate(handles) && fresh(set h | h in handles)
    ensures (SystemOf(fs, handles), replies) == Run(fs.mount, System(old(fs.Now()), []), ops)
    ensures Refines(fs.mount, System(old(fs.Now()), []), a) && ProperRun(fs.mount, a, ops) ==>
              && replies == SpecRun(fs.mount, a, ops).1
              && Refines(fs.mount, SystemOf(fs, handles), SpecRun(fs.mount, a, ops).0)
  {
    hide Step, Refines, ProperRun, SpecRun, Run;
    ghost var m, start := fs.mount, System(fs.Now(), []);
    if Refines(m, start, a) && ProperRun(m, a, ops) {
      RunRefines(m, start, a, ops);
    }
    handles, replies := [], [];
    var i: nat := 0;
    assert ops[0..] == ops;
    assert [] + Run(m, start, ops).1 == Run(m, start, ops).1;
    while i < |ops|
      invariant i <= |ops| && fs.Valid() && fs.mount == m && fs.fatBuffer == old(fs.fatBuffer)
      invariant Separate(handles) && fresh(set h | h in handles)
      invariant Run(m, start, ops)
             == (Run(m, SystemOf(fs, handles), ops[i..]).0, replies + Run(m, SystemOf(fs, handles), ops[i..]).1)
    {
      RunStep(m, SystemOf(fs, handles), ops, i);
      var reply;
      handles, reply := Call(fs, handles, ops[i]);
      Onward(replies, reply, Run(m, SystemOf(fs, handles), ops[i + 1..]).1);
      replies, i := replies + [reply], i + 1;
    }
    assert replies + [] == replies;
    RunEnds(m, SystemOf(fs, handles), ops[i..]);
  }

  lemma Onward(replies: seq<Reply>, reply: Reply, rest: seq<Reply>)
    ensures replies + ([reply] + rest) == replies + [reply] + rest
  {
  }

  lemma RunEnds(m: Volume.MountInfo, s: System, ops: seq<Op>)
    requires Mounted(m, s.v) && ops == []
    ensures Run(m, s, ops) == (s, [])
  {
  }
}

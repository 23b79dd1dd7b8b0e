/** What a load can report, over all runs of the cold-start cache. */
module ColdStartGuarantee {
  import opened ColdStart
  import opened Text

  // ----- reachability

  ghost predicate AllLossless(actions: seq<Action>) {
    forall k | 0 <= k < |actions| :: Lossless(actions[k])
  }

  /** By a run in which nothing is lost: tasks interleave, and writes may be torn. */
  ghost predicate Reaches(digest: Digest, s: System, t: System) {
    exists actions :: AllLossless(actions) && Run(digest, s, actions) == t
  }

  ghost predicate ReachesWithLosses(digest: Digest, s: System, t: System) {
    exists actions :: Run(digest, s, actions) == t
  }

  lemma {:induction false} RunConcat(digest: Digest, s: System, a: seq<Action>, b: seq<Action>)
    ensures Run(digest, s, a + b) == Run(digest, Run(digest, s, a), b)
  {
    hide Apply;
    if b == [] {
      assert a + b == a;
    } else {
      assert (a + b)[..|a + b| - 1] == a + b[..|b| - 1];
      RunConcat(digest, s, a, b[..|b| - 1]);
    }
  }

  lemma ReachTrans(digest: Digest, s: System, t: System, u: System)
    requires Reaches(digest, s, t) && Reaches(digest, t, u)
    ensures Reaches(digest, s, u)
  {
    var a :| AllLossless(a) && Run(digest, s, a) == t;
    var b :| AllLossless(b) && Run(digest, t, b) == u;
    RunConcat(digest, s, a, b);
    hide Run, Lossless;
    assert AllLossless(a + b);
  }

  lemma ReachApply(digest: Digest, s: System, a: Action)
    requires Lossless(a)
    ensures Reaches(digest, s, Apply(digest, s, a))
  {
    assert Run(digest, s, [a][..0]) == s;
    assert AllLossless([a]);
    assert Run(digest, s, [a]) == Apply(digest, s, a);
  }

  /** One step of a task, after which `rest` is reachable. */
  lemma ReachStep(digest: Digest, s: System, id: nat, t: System)
    requires id in s.tasks && Reaches(digest, StepTask(digest, s, id), t)
    ensures Reaches(digest, s, t)
  {
    ReachApply(digest, s, Step(id));
    ReachTrans(digest, s, StepTask(digest, s, id), t);
  }

  lemma ReachSelf(digest: Digest, s: System)
    ensures Reaches(digest, s, s)
  {
    assert AllLossless([]) && Run(digest, s, []) == s;
  }

  // ----- an undisturbed load

  /** What a load reports if no other task takes a step meanwhile. */
  function LoadVerdict(digest: Digest, s: System, name: string): Verdict {
    if name !in s.moduleFiles then Missing
    else if name !in s.hashFiles then Failed
    else
      var bytes := Content(s.moduleData, s.moduleFiles[name]);
      if digest(bytes) == Trim(Content(s.hashData, s.hashFiles[name])) then Found(bytes) else Failed
  }

  lemma SetTwice(s: System, id: nat, t: Task, u: Task)
    ensures SetTask(SetTask(s, id, t), id, u) == SetTask(s, id, u)
  {
    assert s.tasks[id := t][id := u] == s.tasks[id := u];
  }

  /** A load whose next step leads to task u gets wherever it gets from u. */
  lemma LoadStep(digest: Digest, s: System, id: nat, t: Task, u: Task, goal: System)
    requires t.CheckModule? || t.OpenModuleToRead? || t.ReadModule? || t.OpenHashToRead? || t.ReadHash?
    requires NextRead(digest, s, t) == u
    requires Reaches(digest, SetTask(s, id, u), goal)
    ensures Reaches(digest, SetTask(s, id, t), goal)
  {
    hide Reaches;
    var s' := SetTask(s, id, t);
    assert NextRead(digest, s', t) == NextRead(digest, s, t);
    SetTwice(s, id, t, u);
    assert StepTask(digest, s', id) == SetTask(s, id, u);
    ReachStep(digest, s', id, goal);
  }

  lemma {:induction false} ReadHashToEnd(digest: Digest, s: System, id: nat, name: string, bytes: Bytes, i: Inode, got: string)
    requires got <= Content(s.hashData, i)
    ensures Reaches(digest, SetTask(s, id, ReadHash(name, bytes, i, got)),
      SetTask(s, id, Loaded(name, if digest(bytes) == Trim(Content(s.hashData, i)) then Found(bytes) else Failed)))
    decreases |Content(s.hashData, i)| - |got|
  {
    hide Reaches, Trim;
    var content := Content(s.hashData, i);
    var goal := SetTask(s, id, Loaded(name, if digest(bytes) == Trim(content) then Found(bytes) else Failed));
    if |got| < |content| {
      ReadHashToEnd(digest, s, id, name, bytes, i, got + [content[|got|]]);
      LoadStep(digest, s, id, ReadHash(name, bytes, i, got), ReadHash(name, bytes, i, got + [content[|got|]]), goal);
    } else {
      assert got == content;
      ReachSelf(digest, goal);
      LoadStep(digest, s, id, ReadHash(name, bytes, i, got), goal.tasks[id], goal);
    }
  }

  lemma {:induction false} ReadModuleUpTo(digest: Digest, s: System, id: nat, name: string, i: Inode, got: Bytes, bytes: Bytes)
    requires got <= bytes <= Content(s.moduleData, i)
    ensures Reaches(digest, SetTask(s, id, ReadModule(name, i, got)), SetTask(s, id, ReadModule(name, i, bytes)))
    decreases |bytes| - |got|
  {
    hide Reaches;
    var content, goal := Content(s.moduleData, i), SetTask(s, id, ReadModule(name, i, bytes));
    if |got| < |bytes| {
      ReadModuleUpTo(digest, s, id, name, i, got + [content[|got|]], bytes);
      LoadStep(digest, s, id, ReadModule(name, i, got), ReadModule(name, i, got + [content[|got|]]), goal);
    } else {
      assert got == bytes;
      ReachSelf(digest, goal);
    }
  }

  /** A load that has read a first part of the module file. */
  lemma StartReading(digest: Digest, s: System, id: nat, name: string, bytes: Bytes) returns (t: System)
    requires id !in s.tasks && name in s.moduleFiles && bytes <= Content(s.moduleData, s.moduleFiles[name])
    ensures Reaches(digest, s, t) && t == SetTask(s, id, ReadModule(name, s.moduleFiles[name], bytes))
  {
    hide Reaches;
    var i := s.moduleFiles[name];
    t := SetTask(s, id, ReadModule(name, i, bytes));
    ReadModuleUpTo(digest, s, id, name, i, [], bytes);
    LoadStep(digest, s, id, OpenModuleToRead(name), ReadModule(name, i, []), t);
    LoadStep(digest, s, id, CheckModule(name), OpenModuleToRead(name), t);
    ReachApply(digest, s, StartLoad(id, name));
    ReachTrans(digest, s, SetTask(s, id, CheckModule(name)), t);
  }

  /** From the opening of the digest file on. */
  lemma LoadFromHash(digest: Digest, s: System, id: nat, name: string, bytes: Bytes) returns (goal: System)
    ensures Reaches(digest, SetTask(s, id, OpenHashToRead(name, bytes)), goal)
    ensures goal == SetTask(s, id, Loaded(name,
      if name in s.hashFiles && digest(bytes) == Trim(Content(s.hashData, s.hashFiles[name])) then Found(bytes) else Failed))
  {
    hide Reaches, Trim;
    if name in s.hashFiles {
      var i := s.hashFiles[name];
      goal := SetTask(s, id, Loaded(name, if digest(bytes) == Trim(Content(s.hashData, i)) then Found(bytes) else Failed));
      ReadHashToEnd(digest, s, id, name, bytes, i, "");
      LoadStep(digest, s, id, OpenHashToRead(name, bytes), ReadHash(name, bytes, i, ""), goal);
    } else {
      goal := SetTask(s, id, Loaded(name, Failed));
      ReachSelf(digest, goal);
      LoadStep(digest, s, id, OpenHashToRead(name, bytes), Loaded(name, Failed), goal);
    }
  }

  /** An undisturbed load ends with its verdict, and changes nothing else. */
  lemma SoloLoad(digest: Digest, s: System, id: nat, name: string)
    requires id !in s.tasks
    ensures Reaches(digest, s, SetTask(s, id, Loaded(name, LoadVerdict(digest, s, name))))
  {
    hide Reaches, Trim;
    if name in s.moduleFiles {
      var i := s.moduleFiles[name];
      var bytes := Content(s.moduleData, i);
      var read := StartReading(digest, s, id, name, bytes);
      var goal := LoadFromHash(digest, s, id, name, bytes);
      LoadStep(digest, s, id, ReadModule(name, i, bytes), OpenHashToRead(name, bytes), goal);
      ReachTrans(digest, s, read, goal);
    } else {
      var goal := SetTask(s, id, Loaded(name, Missing));
      ReachSelf(digest, goal);
      LoadStep(digest, s, id, CheckModule(name), Loaded(name, Missing), goal);
      ReachApply(digest, s, StartLoad(id, name));
      ReachTrans(digest, s, SetTask(s, id, CheckModule(name)), goal);
    }
  }

  /** In plain terms: none without a module file, an error without a digest file or with another digest than
      that of the module file's bytes, and else these bytes. */
  lemma VerdictInPlainTerms(digest: Digest, s: System, name: string, bytes: Bytes)
    ensures LoadVerdict(digest, s, name) == Missing <==> name !in s.moduleFiles
    ensures LoadVerdict(digest, s, name) == Found(bytes) <==>
      && name in s.moduleFiles && name in s.hashFiles
      && bytes == Content(s.moduleData, s.moduleFiles[name])
      && digest(bytes) == Trim(Content(s.hashData, s.hashFiles[name]))
  {
  }

  // ----- an undisturbed precompile or remove

  /** A writer of the module file writes its bytes up to position n. */
  lemma {:induction false} WriteModuleUpTo(digest: Digest, s: System, id: nat, name: string, data: Bytes, i: Inode,
                                           offset: nat, n: nat)
    requires offset <= n <= |data| && i in s.moduleData && s.moduleData[i] == data[..offset]
    ensures Reaches(digest, SetTask(s, id, WriteModule(name, data, i, offset)),
                    SetTask(s, id, WriteModule(name, data, i, n)).(moduleData := s.moduleData[i := data[..n]]))
    decreases n - offset
  {
    hide Reaches;
    var s' := SetTask(s, id, WriteModule(name, data, i, offset));
    var goal := SetTask(s, id, WriteModule(name, data, i, n)).(moduleData := s.moduleData[i := data[..n]]);
    if offset < n {
      var next := s.(moduleData := s.moduleData[i := data[..offset + 1]]);
      WriteModuleUpTo(digest, next, id, name, data, i, offset + 1, n);
      assert next.moduleData[i := data[..n]] == s.moduleData[i := data[..n]];
      assert Overlay(data[..offset], offset, data[offset], 0) == data[..offset + 1];
      SetTwice(s, id, s'.tasks[id], WriteModule(name, data, i, offset + 1));
      assert StepTask(digest, s', id) == SetTask(next, id, WriteModule(name, data, i, offset + 1));
      ReachStep(digest, s', id, goal);
    } else {
      assert s.moduleData[i := data[..n]] == s.moduleData;
      ReachSelf(digest, goal);
    }
  }

  /** content with the characters from `offset` to `n` replaced by those of hex. */
  function Overwrite(content: string, hex: string, offset: nat, n: nat): string
    requires offset <= n <= |hex| && offset <= |content|
  {
    content[..offset] + hex[offset..n] + if n < |content| then content[n..] else ""
  }

  lemma OverwriteStep(content: string, hex: string, offset: nat, n: nat)
    requires offset < n <= |hex| && offset <= |content|
    ensures var c := Overlay(content, offset, hex[offset], '\0');
      offset + 1 <= |c| && Overwrite(c, hex, offset + 1, n) == Overwrite(content, hex, offset, n)
  {
    var c := Overlay(content, offset, hex[offset], '\0');
    assert c[..offset + 1] == content[..offset] + [hex[offset]];
    assert hex[offset..n] == [hex[offset]] + hex[offset + 1..n];
    if n < |content| {
      assert c[n..] == content[n..];
    }
  }

  /** A writer of the digest file writes its characters up to position n. */
  lemma {:induction false} WriteHashUpTo(digest: Digest, s: System, id: nat, name: string, data: Bytes, i: Inode,
                                         offset: nat, n: nat) returns (t: System)
    requires i in s.hashData && offset <= n <= |digest(data)| && offset <= |s.hashData[i]|
    ensures Reaches(digest, SetTask(s, id, WriteHash(name, data, i, offset)), t)
    ensures t == SetTask(s, id, WriteHash(name, data, i, n)).(
      hashData := s.hashData[i := Overwrite(s.hashData[i], digest(data), offset, n)], hashPast := t.hashPast)
    decreases n - offset
  {
    hide Reaches;
    var hex, content := digest(data), s.hashData[i];
    var s' := SetTask(s, id, WriteHash(name, data, i, offset));
    if offset < n {
      var c := Overlay(content, offset, hex[offset], '\0');
      var next := PutHash(s, i, c);
      OverwriteStep(content, hex, offset, n);
      t := WriteHashUpTo(digest, next, id, name, data, i, offset + 1, n);
      assert next.hashData[i := Overwrite(content, hex, offset, n)] == s.hashData[i := Overwrite(content, hex, offset, n)];
      SetTwice(s, id, s'.tasks[id], WriteHash(name, data, i, offset + 1));
      assert StepTask(digest, s', id) == SetTask(next, id, WriteHash(name, data, i, offset + 1));
      ReachStep(digest, s', id, t);
    } else {
      assert Overwrite(content, hex, offset, n) == content;
      t := s';
      assert s.hashData[i := content] == s.hashData;
      ReachSelf(digest, s');
    }
  }

  /** Where a precompile stands that has just opened its digest file, nothing else having moved. */
  ghost predicate AtHash(s: System, id: nat, name: string, data: Bytes, t: System) {
    && name in t.moduleFiles && t.moduleFiles[name] in t.moduleData && t.moduleData[t.moduleFiles[name]] == data
    && name in t.hashFiles && t.hashFiles[name] in t.hashData && t.hashData[t.hashFiles[name]] == ""
    && (name in s.hashFiles ==> t.hashFiles[name] == s.hashFiles[name])
    && t.tasks == s.tasks[id := WriteHash(name, data, t.hashFiles[name], 0)]
    && t.written == s.written + {(name, data)} && t.started == s.started + {(name, data)}
  }

  /** Where a precompile stands that has just written the first n bytes of its module file. */
  ghost predicate ModuleWritten(s: System, id: nat, name: string, data: Bytes, n: nat, t: System) {
    && n <= |data|
    && name in t.moduleFiles && t.moduleFiles[name] in t.moduleData && t.moduleData[t.moduleFiles[name]] == data[..n]
    && t.tasks == s.tasks[id := WriteModule(name, data, t.moduleFiles[name], n)]
    && (name in s.moduleFiles ==> t.moduleFiles == s.moduleFiles)
    && t.hashFiles == s.hashFiles && t.hashData == s.hashData
    && t.written == s.written && t.started == s.started + {(name, data)}
  }

  lemma ModuleCreated(s: System, id: nat, name: string, data: Bytes)
    ensures var t := CreateModule(s, id, name, data);
      && name in t.moduleFiles && t.moduleFiles[name] in t.moduleData && t.moduleData[t.moduleFiles[name]] == []
      && t.tasks == s.tasks[id := WriteModule(name, data, t.moduleFiles[name], 0)]
      && (name in s.moduleFiles ==> t.moduleFiles == s.moduleFiles)
      && t.hashFiles == s.hashFiles && t.hashData == s.hashData && t.written == s.written && t.started == s.started
  {
  }

  lemma ReachOpened(digest: Digest, s: System, id: nat, name: string, data: Bytes) returns (t: System)
    requires id !in s.tasks
    ensures Reaches(digest, s, t) && ModuleWritten(s, id, name, data, 0, t)
  {
    hide Reaches;
    var s1 := SetTask(s, id, OpenModule(name, data)).(started := s.started + {(name, data)});
    t := CreateModule(s1, id, name, data);
    assert StepTask(digest, s1, id) == t;
    ModuleCreated(s1, id, name, data);
    hide CreateModule, StepTask;
    ReachSelf(digest, t);
    ReachStep(digest, s1, id, t);
    ReachApply(digest, s, StartPrecompile(id, name, data));
    ReachTrans(digest, s, s1, t);
    SetTwice(s, id, OpenModule(name, data), WriteModule(name, data, t.moduleFiles[name], 0));
  }

  lemma ReachModule(digest: Digest, s: System, id: nat, name: string, data: Bytes, n: nat) returns (t: System)
    requires id !in s.tasks && n <= |data|
    ensures Reaches(digest, s, t) && ModuleWritten(s, id, name, data, n, t)
  {
    hide Reaches;
    var o := ReachOpened(digest, s, id, name, data);
    var i := o.moduleFiles[name];
    t := SetTask(o, id, WriteModule(name, data, i, n)).(moduleData := o.moduleData[i := data[..n]]);
    assert o.tasks[id := WriteModule(name, data, i, 0)] == o.tasks;
    WriteModuleUpTo(digest, o, id, name, data, i, 0, n);
    ReachTrans(digest, s, o, t);
    assert t.tasks == s.tasks[id := WriteModule(name, data, i, n)];
  }

  lemma HashCreated(s: System, id: nat, name: string, data: Bytes)
    ensures var t := CreateHash(s, id, name, data);
      && name in t.hashFiles && t.hashFiles[name] in t.hashData && t.hashData[t.hashFiles[name]] == ""
      && (name in s.hashFiles ==> t.hashFiles[name] == s.hashFiles[name])
      && t.tasks == s.tasks[id := WriteHash(name, data, t.hashFiles[name], 0)]
      && t.moduleFiles == s.moduleFiles && t.moduleData == s.moduleData
      && t.written == s.written && t.started == s.started
  {
  }

  /** From the last byte of the module file to the opening of the digest file. */
  lemma FinishModule(digest: Digest, m: System, id: nat, name: string, data: Bytes, i: Inode) returns (t: System)
    requires id in m.tasks && m.tasks[id] == WriteModule(name, data, i, |data|)
    ensures Reaches(digest, m, t)
    ensures t == CreateHash(SetTask(m, id, OpenHash(name, data)).(written := m.written + {(name, data)}), id, name, data)
  {
    hide Reaches, CreateHash;
    var finished := SetTask(m, id, OpenHash(name, data)).(written := m.written + {(name, data)});
    t := CreateHash(finished, id, name, data);
    assert StepTask(digest, m, id) == finished;
    assert StepTask(digest, finished, id) == t;
    ReachSelf(digest, t);
    ReachStep(digest, finished, id, t);
    ReachStep(digest, m, id, t);
  }

  /** An undisturbed precompile reaches its digest file with the module file complete. */
  lemma ReachHash(digest: Digest, s: System, id: nat, name: string, data: Bytes) returns (t: System)
    requires id !in s.tasks
    ensures Reaches(digest, s, t) && AtHash(s, id, name, data, t)
  {
    hide Reaches, CreateHash;
    var m := ReachModule(digest, s, id, name, data, |data|);
    assert data[..|data|] == data;
    t := FinishModule(digest, m, id, name, data, m.moduleFiles[name]);
    HashCreated(SetTask(m, id, OpenHash(name, data)).(written := m.written + {(name, data)}), id, name, data);
    ReachTrans(digest, s, m, t);
    assert t.tasks == s.tasks[id := WriteHash(name, data, t.hashFiles[name], 0)];
  }

  lemma DigestIsTrimmed(digest: Digest, data: Bytes)
    requires IsHexDigest(digest)
    ensures Trim(digest(data)) == digest(data)
  {
  }

  /** An undisturbed precompile leaves a cache from which the next load reports exactly what it
      wrote, whatever the files of that name held before. */
  lemma PrecompileThenLoad(digest: Digest, s: System, id: nat, name: string, data: Bytes) returns (t: System)
    requires IsHexDigest(digest) && id !in s.tasks
    ensures Reaches(digest, s, t) && id in t.tasks && t.tasks[id] == Precompiled
    ensures LoadVerdict(digest, t, name) == Found(data)
  {
    hide Reaches, IsHexDigest, Trim;
    var h := ReachHash(digest, s, id, name, data);
    var i, hex := h.hashFiles[name], digest(data);
    assert h.tasks[id := WriteHash(name, data, i, 0)] == h.tasks;
    assert Overwrite("", hex, 0, |hex|) == hex;
    var full := WriteHashUpTo(digest, h, id, name, data, i, 0, |hex|);
    t := SetTask(full, id, Precompiled);
    assert StepTask(digest, full, id) == t;
    hide StepTask;
    ReachSelf(digest, t);
    ReachStep(digest, full, id, t);
    ReachTrans(digest, s, h, full);
    ReachTrans(digest, s, full, t);
    DigestIsTrimmed(digest, data);
  }

  /** An undisturbed remove leaves nothing to load. */
  lemma RemoveThenLoad(digest: Digest, s: System, id: nat, name: string) returns (t: System)
    requires id !in s.tasks
    ensures Reaches(digest, s, t) && id in t.tasks && t.tasks[id] == Removed
    ensures LoadVerdict(digest, t, name) == Missing && name !in t.hashFiles
  {
    hide Reaches;
    var s1 := SetTask(s, id, UnlinkModule(name));
    var s2 := StepTask(digest, s1, id);
    t := StepTask(digest, s2, id);
    ReachSelf(digest, t);
    ReachStep(digest, s2, id, t);
    ReachStep(digest, s1, id, t);
    ReachApply(digest, s, StartRemove(id, name));
    ReachTrans(digest, s, s1, t);
  }

  // ----- a precompile or remove that is torn

  /** A precompile of a new name that is torn anywhere in its module file leaves nothing that loads: a
      module file without its digest is an error. */
  lemma TornPrecompileFails(digest: Digest, s: System, id: nat, name: string, data: Bytes, n: nat) returns (t: System)
    requires id !in s.tasks && n <= |data| && name !in s.hashFiles
    ensures Reaches(digest, s, t) && name in t.moduleFiles
    ensures id in t.tasks && t.tasks[id] == WriteModule(name, data, t.moduleFiles[name], n)
    ensures LoadVerdict(digest, t, name) == Failed
  {
    hide Reaches;
    t := ReachModule(digest, s, id, name, data, n);
  }

  /** The module file goes first: a remove that is torn between its two files leaves nothing that loads. */
  lemma TornRemoveIsEnough(digest: Digest, s: System, id: nat, name: string) returns (t: System)
    requires id !in s.tasks
    ensures Reaches(digest, s, t) && id in t.tasks && t.tasks[id] == UnlinkHash(name)
    ensures LoadVerdict(digest, t, name) == Missing && t.hashFiles == s.hashFiles
  {
    hide Reaches;
    var s1 := SetTask(s, id, UnlinkModule(name));
    t := StepTask(digest, s1, id);
    ReachSelf(digest, t);
    ReachStep(digest, s1, id, t);
    ReachApply(digest, s, StartRemove(id, name));
    ReachTrans(digest, s, s1, t);
  }

  /** If the module file vanishes between a load's check and its opening, the load fails: it has not missed. */
  lemma VanishedModuleFails(digest: Digest, s: System, id: nat, name: string)
    requires id in s.tasks && s.tasks[id] == OpenModuleToRead(name) && name !in s.moduleFiles
    ensures StepTask(digest, s, id).tasks[id] == Loaded(name, Failed)
  {
  }

  // ----- exactly when a load can be trusted

  /** Load task `id` has handed these bytes on as the module of that name. */
  ghost predicate Reports(s: System, id: nat, name: string, bytes: Bytes) {
    id in s.tasks && s.tasks[id] == Loaded(name, Found(bytes))
  }

  /** Only serializations from w were ever completely written under the name. */
  ghost predicate WrittenWithin(s: System, name: string, w: set<Bytes>) {
    forall data | (name, data) in s.written :: data in w
  }

  /** Only serializations from w were ever begun to be written under the name. */
  ghost predicate StartedWithin(s: System, name: string, w: set<Bytes>) {
    forall data | (name, data) in s.started :: data in w
  }

  /** The bytes have the digest of one of the serializations: they are one, or a digest collision. */
  ghost predicate Genuine(digest: Digest, w: set<Bytes>, bytes: Bytes) {
    exists data | data in w :: digest(data) == digest(bytes)
  }

  /** Each character of hex is the one that some serialization's digest has in its place. */
  ghost predicate IsSplice(digest: Digest, w: set<Bytes>, hex: string) {
    forall k | 0 <= k < |hex| :: HasCharAt(digest, w, k, hex[k])
  }

  ghost predicate HasCharAt(digest: Digest, w: set<Bytes>, k: nat, c: char) {
    exists data | data in w :: k < |digest(data)| && digest(data)[k] == c
  }

  /** No byte string has a digest pieced together from the digests of w without being one of them. */
  ghost predicate SpliceFree(digest: Digest, w: set<Bytes>) {
    forall bytes | IsSplice(digest, w, digest(bytes)) :: Genuine(digest, w, bytes)
  }

  /** In every run that completely writes only serializations from w under the name, whatever the
      schedule, the crashes and -- if there are any -- the losses, a load of that name reports only
      genuine ones.  Others may have been written in part. */
  ghost predicate LoadsAreGenuine(digest: Digest, name: string, w: set<Bytes>, losses: bool) {
    forall s, id, bytes |
      && (if losses then ReachesWithLosses(digest, EMPTY, s) else Reaches(digest, EMPTY, s))
      && WrittenWithin(s, name, w) && Reports(s, id, name, bytes) ::
      Genuine(digest, w, bytes)
  }

  /** What a load reports has a digest pieced together from those written under its name. */
  lemma ReportedIsSplice(digest: Digest, s: System, id: nat, name: string, bytes: Bytes, w: set<Bytes>)
    requires IsHexDigest(digest) && ReachesWithLosses(digest, EMPTY, s)
    requires WrittenWithin(s, name, w) && Reports(s, id, name, bytes)
    ensures IsSplice(digest, w, digest(bytes))
  {
    var actions :| Run(digest, EMPTY, actions) == s;
    RunKeepsInv(digest, actions);
    assert TaskOk(digest, s.hashOwner, s.written, s.tasks[id]);
    var hex := digest(bytes);
    forall k | 0 <= k < |hex|
      ensures HasCharAt(digest, w, k, hex[k])
    {
      assert FromDigest(digest, s.written, name, k, hex[k]);
    }
  }

  /** Writers of ds have all opened the digest file of the name, and none has written to it. */
  ghost predicate WritersWaiting(s: System, name: string, ds: seq<Bytes>) {
    && name in s.moduleFiles && s.moduleFiles[name] in s.moduleData
    && name in s.hashFiles && s.hashFiles[name] in s.hashData && s.hashData[s.hashFiles[name]] == ""
    && (forall id: nat :: id in s.tasks <==> id < |ds|)
    && (forall k | 0 <= k < |ds| :: s.tasks[k] == WriteHash(name, ds[k], s.hashFiles[name], 0))
    && (forall p | p in s.written || p in s.started :: p.0 == name && p.1 in ds)
  }

  lemma FirstWriter(name: string, data: Bytes, t: System)
    requires AtHash(EMPTY, 0, name, data, t)
    ensures WritersWaiting(t, name, [data])
  {
    assert t.written == t.started == {(name, data)};
    assert t.tasks.Keys == {0};
  }

  lemma OneMoreWriter(s: System, name: string, ds: seq<Bytes>, data: Bytes, t: System)
    requires WritersWaiting(s, name, ds) && AtHash(s, |ds|, name, data, t)
    ensures WritersWaiting(t, name, ds + [data])
  {
    assert t.tasks.Keys == s.tasks.Keys + {|ds|};
    forall p | p in t.written || p in t.started
      ensures p.0 == name && p.1 in ds + [data]
    {
      assert p in s.written || p in s.started || p == (name, data);
    }
  }

  lemma {:induction false} ReachWriters(digest: Digest, name: string, ds: seq<Bytes>) returns (t: System)
    requires ds != []
    ensures Reaches(digest, EMPTY, t) && WritersWaiting(t, name, ds)
  {
    hide Reaches, AtHash;
    var last := |ds| - 1;
    if last == 0 {
      t := ReachHash(digest, EMPTY, 0, name, ds[0]);
      FirstWriter(name, ds[0], t);
      assert ds == [ds[0]];
    } else {
      var s := ReachWriters(digest, name, ds[..last]);
      t := ReachHash(digest, s, last, name, ds[last]);
      ReachTrans(digest, EMPTY, s, t);
      OneMoreWriter(s, name, ds[..last], ds[last], t);
      assert ds == ds[..last] + [ds[last]];
    }
  }

  /** The digest file holds hex from position k on. */
  ghost predicate HoldsFrom(content: string, hex: string, k: nat) {
    || (k == |hex| && content == "")
    || (|content| == |hex| && forall p | k <= p < |hex| :: content[p] == hex[p])
  }

  lemma HoldsMore(content: string, w: string, hex: string, k: nat)
    requires 0 < k <= |hex| == |w| && w[k - 1] == hex[k - 1] && HoldsFrom(content, hex, k)
    ensures HoldsFrom(Overwrite(content, w, 0, k), hex, k - 1)
  {
  }

  /** Writer k-1 writes as far as its own number. */
  lemma WriteOneBack(digest: Digest, s: System, name: string, data: Bytes, i: Inode, hex: string, k: nat)
    returns (t: System)
    requires 0 < k <= |hex| == |digest(data)| && digest(data)[k - 1] == hex[k - 1]
    requires k - 1 in s.tasks && s.tasks[k - 1] == WriteHash(name, data, i, 0)
    requires i in s.hashData && HoldsFrom(s.hashData[i], hex, k)
    ensures Reaches(digest, s, t)
    ensures t.tasks == s.tasks[k - 1 := WriteHash(name, data, i, k)]
    ensures i in t.hashData && HoldsFrom(t.hashData[i], hex, k - 1)
    ensures t == s.(tasks := t.tasks, hashData := t.hashData, hashPast := t.hashPast)
  {
    hide Reaches;
    HoldsMore(s.hashData[i], digest(data), hex, k);
    hide HoldsFrom, Overwrite;
    t := WriteHashUpTo(digest, s, k - 1, name, data, i, 0, k);
    assert s.tasks[k - 1 := WriteHash(name, data, i, 0)] == s.tasks;
  }

  /** Writers k-1 down to 0 each write as far as their own number: each one's last character stays. */
  lemma {:induction false} WriteBack(digest: Digest, s: System, name: string, ds: seq<Bytes>, i: Inode, hex: string, k: nat)
    returns (t: System)
    requires |hex| > 0 && |ds| == |hex| && k <= |hex|
    requires forall j | 0 <= j < |hex| :: |digest(ds[j])| == |hex| && digest(ds[j])[j] == hex[j]
    requires forall j | 0 <= j < k :: j in s.tasks && s.tasks[j] == WriteHash(name, ds[j], i, 0)
    requires i in s.hashData && HoldsFrom(s.hashData[i], hex, k)
    ensures Reaches(digest, s, t)
    ensures t.tasks.Keys == s.tasks.Keys && i in t.hashData && t.hashData[i] == hex
    ensures t == s.(tasks := t.tasks, hashData := t.hashData, hashPast := t.hashPast)
    decreases k
  {
    hide Reaches;
    if k == 0 {
      ReachSelf(digest, s);
      t := s;
    } else {
      hide HoldsFrom;
      var s' := WriteOneBack(digest, s, name, ds[k - 1], i, hex, k);
      assert s'.tasks.Keys == s.tasks.Keys;
      t := WriteBack(digest, s', name, ds, i, hex, k - 1);
      ReachTrans(digest, s, s', t);
    }
  }

  ghost function DonorOf(digest: Digest, w: set<Bytes>, k: nat, c: char): Bytes
    requires HasCharAt(digest, w, k, c)
  {
    var data :| data in w && k < |digest(data)| && digest(data)[k] == c;
    data
  }

  /** For each position of a splice, a serialization whose digest has its character there. */
  lemma Donors(digest: Digest, w: set<Bytes>, hex: string) returns (ds: seq<Bytes>)
    requires IsSplice(digest, w, hex)
    ensures |ds| == |hex| && forall data | data in ds :: data in w
    ensures forall k | 0 <= k < |hex| :: k < |digest(ds[k])| && digest(ds[k])[k] == hex[k]
  {
    ds := seq(|hex|, k requires 0 <= k < |hex| => DonorOf(digest, w, k, hex[k]));
  }

  lemma WaitingWithin(s: System, name: string, ds: seq<Bytes>, w: set<Bytes>)
    requires WritersWaiting(s, name, ds) && forall data | data in ds :: data in w
    ensures StartedWithin(s, name, w) && WrittenWithin(s, name, w)
  {
  }

  /** The digest file holds a spliced digest, written by precompiles of serializations from w. */
  lemma SpliceDigest(digest: Digest, name: string, w: set<Bytes>, hex: string) returns (t: System, donor: Bytes)
    requires IsSplice(digest, w, hex) && |hex| > 0 && forall data :: |digest(data)| == |hex|
    ensures Reaches(digest, EMPTY, t) && name in t.moduleFiles
    ensures name in t.hashFiles && Content(t.hashData, t.hashFiles[name]) == hex
    ensures StartedWithin(t, name, w) && WrittenWithin(t, name, w) && donor in w
    ensures forall id | id in t.tasks :: id < |hex|
  {
    hide Reaches, IsSplice;
    var ds := Donors(digest, w, hex);
    var ready := ReachWriters(digest, name, ds);
    WaitingWithin(ready, name, ds, w);
    t := WriteBack(digest, ready, name, ds, ready.hashFiles[name], hex, |hex|);
    ReachTrans(digest, EMPTY, ready, t);
    donor := ds[0];
    assert donor in ds;
  }

  /** If the digest file fits some bytes, a write torn behind them gets them loaded. */
  lemma TornIsLoaded(digest: Digest, s: System, id: nat, name: string, bytes: Bytes) returns (t: System)
    requires IsHexDigest(digest) && id !in s.tasks && id + 1 !in s.tasks
    requires name in s.hashFiles && Content(s.hashData, s.hashFiles[name]) == digest(bytes)
    ensures Reaches(digest, s, t) && t.written == s.written && Reports(t, id + 1, name, bytes)
  {
    hide Reaches, Trim;
    var torn := ReachModule(digest, s, id, name, bytes + [0], |bytes|);
    assert (bytes + [0])[..|bytes|] == bytes;
    DigestIsTrimmed(digest, bytes);
    assert LoadVerdict(digest, torn, name) == Found(bytes);
    SoloLoad(digest, torn, id + 1, name);
    t := SetTask(torn, id + 1, Loaded(name, Found(bytes)));
    ReachTrans(digest, s, torn, t);
  }

  /** Conversely, any byte string whose digest is such a piecing-together is reported in some run, even
      without losses: one writer a position of the digest file, and then a write of the module file that
      is torn behind just these bytes. */
  lemma SpliceIsReported(digest: Digest, name: string, w: set<Bytes>, bytes: Bytes) returns (s: System, id: nat)
    requires IsHexDigest(digest) && IsSplice(digest, w, digest(bytes))
    ensures Reaches(digest, EMPTY, s) && WrittenWithin(s, name, w) && Reports(s, id, name, bytes)
  {
    hide Reaches, IsSplice;
    var hex := digest(bytes);
    var spliced, _ := SpliceDigest(digest, name, w, hex);
    s := TornIsLoaded(digest, spliced, |hex|, name, bytes);
    ReachTrans(digest, EMPTY, spliced, s);
    id := |hex| + 1;
  }

  /** Loads can be trusted in all runs exactly if no digest can be pieced together from the digests of
      the serializations written under the name.  Interleaved and torn writes alone need that condition;
      with losses on top it is still enough. */
  lemma LoadsAreGenuineIffSpliceFree(digest: Digest, name: string, w: set<Bytes>, losses: bool)
    requires IsHexDigest(digest)
    ensures LoadsAreGenuine(digest, name, w, losses) <==> SpliceFree(digest, w)
  {
    hide Reports, WrittenWithin, Genuine, IsSplice, IsHexDigest;
    if SpliceFree(digest, w) {
      forall s, id, bytes | ReachesWithLosses(digest, EMPTY, s) && WrittenWithin(s, name, w) && Reports(s, id, name, bytes)
        ensures Genuine(digest, w, bytes)
      {
        ReportedIsSplice(digest, s, id, name, bytes, w);
      }
    }
    if LoadsAreGenuine(digest, name, w, losses) {
      forall bytes | IsSplice(digest, w, digest(bytes))
        ensures Genuine(digest, w, bytes)
      {
        var s, id := SpliceIsReported(digest, name, w, bytes);
        assert ReachesWithLosses(digest, EMPTY, s);
      }
    }
  }

  /** In particular they can if all precompiles of the name serialize alike. */
  lemma OneSerializationIsSpliceFree(digest: Digest, data: Bytes)
    requires IsHexDigest(digest)
    ensures SpliceFree(digest, {data})
  {
    forall bytes | IsSplice(digest, {data}, digest(bytes))
      ensures digest(data) == digest(bytes)
    {
      assert |digest(data)| == |digest(bytes)|;
      forall k | 0 <= k < |digest(bytes)|
        ensures digest(data)[k] == digest(bytes)[k]
      {
        assert HasCharAt(digest, {data}, k, digest(bytes)[k]);
      }
    }
  }

  /** A digest under which the first character of one and the second of another make a third. */
  function MixingDigest(bytes: Bytes): string {
    if bytes == [1] then "ab" else if bytes == [2] then "cd" else if bytes == [3] then "ad" else "ee"
  }

  lemma MixingIsHex()
    ensures IsHexDigest(MixingDigest)
  {
  }

  /** They cannot for every digest. */
  lemma SplicesExist()
    ensures IsHexDigest(MixingDigest) && !SpliceFree(MixingDigest, {[1], [2]})
  {
    MixingIsHex();
    var w: set<Bytes> := {[1], [2]};
    assert MixingDigest([1]) == "ab" && MixingDigest([2]) == "cd" && MixingDigest([3]) == "ad";
    hide MixingDigest, IsHexDigest;
    assert HasCharAt(MixingDigest, w, 0, 'a') by {
      assert MixingDigest([1])[0] == 'a';
    }
    assert HasCharAt(MixingDigest, w, 1, 'd') by {
      assert MixingDigest([2])[1] == 'd';
    }
    assert IsSplice(MixingDigest, w, MixingDigest([3]));
    assert !Genuine(MixingDigest, w, [3]);
  }
}

/** What a load can report if nothing but given serializations is ever written, in whole or in
    part, and nothing is lost: then the module file, too, holds only a mix of them. */
module ColdStartInterleaved {
  import opened Common
  import opened ColdStart
  import opened ColdStartGuarantee

  ghost predicate HasByteAt(w: set<Bytes>, k: nat, b: byte) {
    exists data :: data in w && k < |data| && data[k] == b
  }

  /** Some serialization has more bytes behind position k. */
  ghost predicate GoesPast(w: set<Bytes>, k: nat) {
    exists data :: data in w && k + 1 < |data|
  }

  /** b is the byte that some serialization has at k, or the zero that is left at k where a file was
      truncated under a writer that had already passed it. */
  ghost predicate IsMixAt(w: set<Bytes>, k: nat, b: byte) {
    HasByteAt(w, k, b) || (b == 0 && GoesPast(w, k))
  }

  ghost predicate IsMix(w: set<Bytes>, bytes: Bytes) {
    forall k | 0 <= k < |bytes| :: IsMixAt(w, k, bytes[k])
  }

  /** The serializations that precompiles of a name set out to write. */
  ghost function Of(started: set<(string, Bytes)>, name: string): set<Bytes> {
    set p | p in started && p.0 == name :: p.1
  }

  lemma MixMonotone(w: set<Bytes>, w': set<Bytes>, bytes: Bytes)
    requires w <= w' && IsMix(w, bytes)
    ensures IsMix(w', bytes)
  {
    forall k | 0 <= k < |bytes|
      ensures IsMixAt(w', k, bytes[k])
    {
      assert IsMixAt(w, k, bytes[k]);
    }
  }

  // ----- what every run without losses keeps

  ghost predicate TaskMixed(owner: map<Inode, string>, started: set<(string, Bytes)>, t: Task) {
    match t
    case OpenModule(name, data) => (name, data) in started
    case WriteModule(name, data, i, _) => (name, data) in started && i in owner && owner[i] == name
    case ReadModule(name, i, bytes) => i in owner && owner[i] == name && IsMix(Of(started, name), bytes)
    case OpenHashToRead(name, bytes) => IsMix(Of(started, name), bytes)
    case ReadHash(name, bytes, _, _) => IsMix(Of(started, name), bytes)
    case Loaded(name, Found(bytes)) => IsMix(Of(started, name), bytes)
    case _ => true
  }

  ghost predicate MixInv(s: System) {
    && (forall i | i in s.moduleData :: i in s.moduleOwner && IsMix(Of(s.started, s.moduleOwner[i]), s.moduleData[i]))
    && (forall name | name in s.moduleFiles ::
          s.moduleFiles[name] in s.moduleOwner && s.moduleOwner[s.moduleFiles[name]] == name)
    && (forall i | i in s.moduleOwner :: i < s.next)
    && (forall id | id in s.tasks :: TaskMixed(s.moduleOwner, s.started, s.tasks[id]))
    && s.written <= s.started
  }

  lemma TaskMixedMonotone(owner: map<Inode, string>, started: set<(string, Bytes)>,
                          owner': map<Inode, string>, started': set<(string, Bytes)>, t: Task)
    requires TaskMixed(owner, started, t) && started <= started'
    requires forall i | i in owner :: i in owner' && owner'[i] == owner[i]
    ensures TaskMixed(owner', started', t)
  {
    forall name, bytes | IsMix(Of(started, name), bytes)
      ensures IsMix(Of(started', name), bytes)
    {
      MixMonotone(Of(started, name), Of(started', name), bytes);
    }
    hide IsMix, Of;
  }

  /** A step that leaves the module files' data alone and moves one task. */
  lemma TaskKeepsMix(s: System, id: nat, t: Task, s': System)
    requires MixInv(s) && TaskMixed(s.moduleOwner, s.started, t)
    requires forall n | n in s'.moduleFiles :: n in s.moduleFiles && s'.moduleFiles[n] == s.moduleFiles[n]
    requires s'.moduleData == s.moduleData && s'.moduleOwner == s.moduleOwner
    requires s'.started == s.started && s'.written <= s.started
    requires s'.next >= s.next && s'.tasks == s.tasks[id := t]
    ensures MixInv(s')
  {
    hide TaskMixed, IsMix, Of;
  }

  lemma PutModuleKeepsMix(s: System, i: Inode, content: Bytes)
    requires MixInv(s) && i in s.moduleOwner && IsMix(Of(s.started, s.moduleOwner[i]), content)
    ensures MixInv(s.(moduleData := s.moduleData[i := content]))
  {
    hide TaskMixed, IsMix, Of;
  }

  lemma AddModuleKeepsMix(s: System, name: string)
    requires MixInv(s)
    ensures MixInv(AddModule(s, name))
  {
    hide IsMix, Of;
    var s' := AddModule(s, name);
    forall id | id in s.tasks
      ensures TaskMixed(s'.moduleOwner, s.started, s.tasks[id])
    {
      hide TaskMixed;
      TaskMixedMonotone(s.moduleOwner, s.started, s'.moduleOwner, s.started, s.tasks[id]);
    }
    hide TaskMixed;
  }

  lemma StartKeepsMix(s: System, id: nat, name: string, data: Bytes)
    requires MixInv(s)
    ensures MixInv(SetTask(s, id, OpenModule(name, data)).(started := s.started + {(name, data)}))
  {
    hide IsMix;
    var started' := s.started + {(name, data)};
    forall other | other in s.tasks
      ensures TaskMixed(s.moduleOwner, started', s.tasks[other])
    {
      hide TaskMixed;
      TaskMixedMonotone(s.moduleOwner, s.started, s.moduleOwner, started', s.tasks[other]);
    }
    forall i | i in s.moduleData
      ensures IsMix(Of(started', s.moduleOwner[i]), s.moduleData[i])
    {
      MixMonotone(Of(s.started, s.moduleOwner[i]), Of(started', s.moduleOwner[i]), s.moduleData[i]);
    }
    hide Of;
  }

  lemma CreateModuleKeepsMix(s: System, id: nat, name: string, data: Bytes)
    requires MixInv(s) && (name, data) in s.started
    ensures MixInv(CreateModule(s, id, name, data))
  {
    AddModuleKeepsMix(s, name);
    var s' := if name in s.moduleFiles then s else AddModule(s, name);
    var i := s'.moduleFiles[name];
    assert i in s'.moduleOwner && s'.moduleOwner[i] == name;
    assert IsMix(Of(s'.started, name), []);
    hide MixInv, IsMix, Of;
    PutModuleKeepsMix(s', i, []);
    var s'' := s'.(moduleData := s'.moduleData[i := []]);
    TaskKeepsMix(s'', id, WriteModule(name, data, i, 0), SetTask(s'', id, WriteModule(name, data, i, 0)));
  }

  /** Writing a byte at its place keeps a mix, also over a gap. */
  lemma OverlayIsMix(w: set<Bytes>, content: Bytes, data: Bytes, offset: nat)
    requires IsMix(w, content) && data in w && offset < |data|
    ensures IsMix(w, Overlay(content, offset, data[offset], 0))
  {
    var r := Overlay(content, offset, data[offset], 0);
    forall k | 0 <= k < |r|
      ensures IsMixAt(w, k, r[k])
    {
      if k == offset {
        assert HasByteAt(w, k, data[k]);
      } else if k < |content| {
        assert IsMixAt(w, k, content[k]);
      } else {
        assert GoesPast(w, k);
      }
    }
  }

  lemma WriteModuleKeepsMix(s: System, id: nat, name: string, data: Bytes, i: Inode, offset: nat)
    requires MixInv(s) && TaskMixed(s.moduleOwner, s.started, WriteModule(name, data, i, offset))
    ensures MixInv(StepWriteModule(s, id, name, data, i, offset))
  {
    if offset < |data| {
      var content := Content(s.moduleData, i);
      assert IsMix(Of(s.started, name), content);
      assert data in Of(s.started, name);
      OverlayIsMix(Of(s.started, name), content, data, offset);
      hide MixInv, IsMix, Of, Overlay;
      var s' := s.(moduleData := s.moduleData[i := Overlay(content, offset, data[offset], 0)]);
      PutModuleKeepsMix(s, i, Overlay(content, offset, data[offset], 0));
      var t := WriteModule(name, data, i, offset + 1);
      TaskKeepsMix(s', id, t, SetTask(s', id, t));
    } else {
      hide IsMix, Of;
      TaskKeepsMix(s, id, OpenHash(name, data), StepWriteModule(s, id, name, data, i, offset));
    }
  }

  lemma ReadStaysMixed(digest: Digest, s: System, t: Task)
    requires MixInv(s) && TaskMixed(s.moduleOwner, s.started, t)
    ensures TaskMixed(s.moduleOwner, s.started, NextRead(digest, s, t))
  {
    hide Of;
    match t {
      case OpenModuleToRead(name) =>
      case ReadModule(name, i, bytes) =>
        assert IsMix(Of(s.started, name), Content(s.moduleData, i));
      case _ =>
    }
  }

  lemma ReadKeepsMix(digest: Digest, s: System, id: nat, t: Task)
    requires MixInv(s) && TaskMixed(s.moduleOwner, s.started, t)
    ensures MixInv(SetTask(s, id, NextRead(digest, s, t)))
  {
    assert s.written <= s.started;
    hide TaskMixed, IsMix, NextRead, MixInv;
    ReadStaysMixed(digest, s, t);
    TaskKeepsMix(s, id, NextRead(digest, s, t), SetTask(s, id, NextRead(digest, s, t)));
  }

  /** Steps at the digest file do not touch what module files hold. */
  lemma CreateHashKeepsMix(s: System, id: nat, name: string, data: Bytes)
    requires MixInv(s)
    ensures MixInv(CreateHash(s, id, name, data))
  {
    assert s.written <= s.started;
    hide MixInv, IsMix, Of;
    var s' := CreateHash(s, id, name, data);
    TaskKeepsMix(s, id, s'.tasks[id], s');
  }

  lemma TaskStaysMixed(owner: map<Inode, string>, started: set<(string, Bytes)>, t: Task)
    requires t.WriteHash? || t.Precompiled?
    ensures TaskMixed(owner, started, t)
  {
  }

  lemma WriteHashKeepsMix(digest: Digest, s: System, id: nat, name: string, data: Bytes, i: Inode, offset: nat)
    requires MixInv(s)
    ensures MixInv(StepWriteHash(s, id, name, data, digest(data), i, offset))
  {
    assert s.written <= s.started;
    hide MixInv, IsMix, Of, Overlay, TaskMixed;
    if offset < |digest(data)| {
      var content := Overlay(Content(s.hashData, i), offset, digest(data)[offset], '\0');
      var t := WriteHash(name, data, i, offset + 1);
      TaskStaysMixed(s.moduleOwner, s.started, t);
      TaskKeepsMix(s, id, t, SetTask(PutHash(s, i, content), id, t));
    } else {
      TaskStaysMixed(s.moduleOwner, s.started, Precompiled);
      TaskKeepsMix(s, id, Precompiled, SetTask(s, id, Precompiled));
    }
  }

  /** Neither does unlinking, nor a task that has ended. */
  lemma UnlinkKeepsMix(s: System, id: nat, name: string)
    requires MixInv(s)
    ensures MixInv(SetTask(s, id, UnlinkHash(name)).(moduleFiles := s.moduleFiles - {name}))
    ensures MixInv(SetTask(s, id, Removed).(hashFiles := s.hashFiles - {name}))
  {
    assert s.written <= s.started;
    hide MixInv, IsMix, Of;
    TaskKeepsMix(s, id, UnlinkHash(name), SetTask(s, id, UnlinkHash(name)).(moduleFiles := s.moduleFiles - {name}));
    TaskKeepsMix(s, id, Removed, SetTask(s, id, Removed).(hashFiles := s.hashFiles - {name}));
  }

  lemma StepKeepsMix(digest: Digest, s: System, id: nat)
    requires MixInv(s) && id in s.tasks
    ensures MixInv(StepTask(digest, s, id))
  {
    assert TaskMixed(s.moduleOwner, s.started, s.tasks[id]);
    assert s.written <= s.started;
    hide MixInv, IsMix, Of, NextRead, CreateModule, CreateHash, StepWriteModule, StepWriteHash;
    match s.tasks[id] {
      case OpenModule(name, data) => CreateModuleKeepsMix(s, id, name, data);
      case WriteModule(name, data, i, offset) => WriteModuleKeepsMix(s, id, name, data, i, offset);
      case OpenHash(name, data) => CreateHashKeepsMix(s, id, name, data);
      case WriteHash(name, data, i, offset) => WriteHashKeepsMix(digest, s, id, name, data, i, offset);
      case UnlinkModule(name) => UnlinkKeepsMix(s, id, name);
      case UnlinkHash(name) => UnlinkKeepsMix(s, id, name);
      case t => ReadKeepsMix(digest, s, id, t);
    }
  }

  lemma CrashKeepsMix(s: System, id: nat)
    requires MixInv(s)
    ensures MixInv(s.(tasks := s.tasks - {id}))
  {
    hide TaskMixed, IsMix, Of;
  }

  lemma OpeningKeepsMix(s: System, id: nat, name: string)
    requires MixInv(s)
    ensures MixInv(SetTask(s, id, UnlinkModule(name))) && MixInv(SetTask(s, id, CheckModule(name)))
  {
    assert s.written <= s.started;
    hide MixInv, IsMix, Of;
    TaskKeepsMix(s, id, UnlinkModule(name), SetTask(s, id, UnlinkModule(name)));
    TaskKeepsMix(s, id, CheckModule(name), SetTask(s, id, CheckModule(name)));
  }

  lemma ApplyKeepsMix(digest: Digest, s: System, a: Action)
    requires MixInv(s) && Lossless(a)
    ensures MixInv(Apply(digest, s, a))
  {
    hide MixInv, StepTask, SetTask;
    match a {
      case StartPrecompile(id, name, data) => StartKeepsMix(s, id, name, data);
      case StartRemove(id, name) => OpeningKeepsMix(s, id, name);
      case StartLoad(id, name) => OpeningKeepsMix(s, id, name);
      case Step(id) =>
        if id in s.tasks {
          StepKeepsMix(digest, s, id);
        }
      case Crash(id) => CrashKeepsMix(s, id);
    }
  }

  lemma {:induction false} RunKeepsMix(digest: Digest, actions: seq<Action>)
    requires AllLossless(actions)
    ensures MixInv(Run(digest, EMPTY, actions))
  {
    if actions != [] {
      RunKeepsMix(digest, actions[..|actions| - 1]);
      ApplyKeepsMix(digest, Run(digest, EMPTY, actions[..|actions| - 1]), actions[|actions| - 1]);
    }
  }
}

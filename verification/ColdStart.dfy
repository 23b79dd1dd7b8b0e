/** The on-disk cache of compiled modules, as a protocol over its files.

    `precompile` truncates and writes the module file, then truncates and writes the digest
    file; `remove` unlinks the module file, then the digest file; `load` checks, opens and
    reads the module file, then the digest file, and accepts if the digest matches.  Here each
    such operation is a task that takes one small step at a time -- one byte per write or
    read -- and any schedule of any number of tasks is a run, with crashes anywhere.  Nothing
    is ever synced, so a run may also lose data and directory entries: earlier ones come back,
    in part or whole.  Files are inodes, as on Unix: a task that has opened a file keeps it
    across an unlink. */
module ColdStart {
  import opened Common
  import opened Text

  type Bytes = seq<byte>
  type Inode = nat

  /** The hex digest of a byte string. */
  type Digest = Bytes -> string

  datatype Verdict = Missing | Failed | Found(bytes: Bytes)

  datatype Task =
    | OpenModule(name: string, data: Bytes)
    | WriteModule(name: string, data: Bytes, inode: Inode, offset: nat)
    | OpenHash(name: string, data: Bytes)
    | WriteHash(name: string, data: Bytes, inode: Inode, offset: nat)
    | Precompiled
    | UnlinkModule(name: string)
    | UnlinkHash(name: string)
    | Removed
    | CheckModule(name: string)
    | OpenModuleToRead(name: string)
    | ReadModule(name: string, inode: Inode, bytes: Bytes)
    | OpenHashToRead(name: string, bytes: Bytes)
    | ReadHash(name: string, bytes: Bytes, inode: Inode, expected: string)
    | Loaded(name: string, verdict: Verdict)

  /** `moduleFiles` and `hashFiles` are the directory.  For the proofs, `started` records every
      serialization that a precompile set out to write, `written` those whose module write ran to its
      end, the owners the names that files were created under, and `hashPast` every content that
      writing has given a digest file. */
  datatype System = System(
    moduleFiles: map<string, Inode>,
    hashFiles: map<string, Inode>,
    moduleData: map<Inode, Bytes>,
    hashData: map<Inode, string>,
    moduleOwner: map<Inode, string>,
    hashOwner: map<Inode, string>,
    hashPast: set<(Inode, string)>,
    next: Inode,
    tasks: map<nat, Task>,
    started: set<(string, Bytes)>,
    written: set<(string, Bytes)>)

  const EMPTY := System(map[], map[], map[], map[], map[], map[], {}, 0, map[], {}, {})

  datatype Action =
    | StartPrecompile(id: nat, name: string, data: Bytes)
    | StartRemove(id: nat, name: string)
    | StartLoad(id: nat, name: string)
    | Step(id: nat)
    | Crash(id: nat)
    | LoseModuleData(inode: Inode, content: Bytes)
    | LoseHashData(inode: Inode, earlier: string, left: string)
    | LoseModuleEntry(name: string, back: Option<Inode>)
    | LoseHashEntry(name: string, back: Option<Inode>)

  // ----- single steps

  /** Writing one element at an offset; a gap reads as fill. */
  function Overlay<T>(content: seq<T>, offset: nat, x: T, fill: T): (r: seq<T>)
    ensures |r| == if offset < |content| then |content| else offset + 1
    ensures forall k | 0 <= k < |r| ::
      r[k] == if k == offset then x else if k < |content| then content[k] else fill
  {
    if offset < |content| then content[offset := x]
    else content + seq(offset - |content|, i => fill) + [x]
  }

  function SetTask(s: System, id: nat, t: Task): System {
    s.(tasks := s.tasks[id := t])
  }

  /** Creates a module file. */
  function AddModule(s: System, name: string): System {
    s.(moduleFiles := s.moduleFiles[name := s.next], moduleOwner := s.moduleOwner[s.next := name], next := s.next + 1)
  }

  /** Opens the module file for writing: an existing file is truncated, else one is created. */
  function CreateModule(s: System, id: nat, name: string, data: Bytes): System {
    var s' := if name in s.moduleFiles then s else AddModule(s, name);
    var i := s'.moduleFiles[name];
    SetTask(s', id, WriteModule(name, data, i, 0)).(moduleData := s'.moduleData[i := []])
  }

  /** Sets what a digest file holds. */
  function PutHash(s: System, i: Inode, content: string): System {
    s.(hashData := s.hashData[i := content], hashPast := s.hashPast + {(i, content)})
  }

  /** Creates a digest file. */
  function AddHash(s: System, name: string): System {
    s.(hashFiles := s.hashFiles[name := s.next], hashOwner := s.hashOwner[s.next := name], next := s.next + 1)
  }

  function CreateHash(s: System, id: nat, name: string, data: Bytes): System {
    var s' := if name in s.hashFiles then s else AddHash(s, name);
    var i := s'.hashFiles[name];
    SetTask(PutHash(s', i, ""), id, WriteHash(name, data, i, 0))
  }

  function Content<T>(m: map<Inode, seq<T>>, i: Inode): seq<T> {
    if i in m then m[i] else []
  }

  function StepWriteModule(s: System, id: nat, name: string, data: Bytes, i: Inode, offset: nat): System {
    if offset < |data| then
      SetTask(s, id, WriteModule(name, data, i, offset + 1)).(
        moduleData := s.moduleData[i := Overlay(Content(s.moduleData, i), offset, data[offset], 0)])
    else
      SetTask(s, id, OpenHash(name, data)).(written := s.written + {(name, data)})
  }

  function StepWriteHash(s: System, id: nat, name: string, data: Bytes, hex: string, i: Inode, offset: nat): System {
    if offset < |hex| then
      SetTask(PutHash(s, i, Overlay(Content(s.hashData, i), offset, hex[offset], '\0')), id,
              WriteHash(name, data, i, offset + 1))
    else SetTask(s, id, Precompiled)
  }

  /** A load changes nothing but its own progress. */
  function NextRead(digest: Digest, s: System, t: Task): Task {
    match t
    case CheckModule(name) =>
      if name in s.moduleFiles then OpenModuleToRead(name) else Loaded(name, Missing)
    case OpenModuleToRead(name) =>
      if name in s.moduleFiles then ReadModule(name, s.moduleFiles[name], []) else Loaded(name, Failed)
    case ReadModule(name, i, bytes) =>
      var content := Content(s.moduleData, i);
      if |bytes| < |content| then ReadModule(name, i, bytes + [content[|bytes|]]) else OpenHashToRead(name, bytes)
    case OpenHashToRead(name, bytes) =>
      if name in s.hashFiles then ReadHash(name, bytes, s.hashFiles[name], "") else Loaded(name, Failed)
    case ReadHash(name, bytes, i, expected) =>
      var content := Content(s.hashData, i);
      if |expected| < |content| then ReadHash(name, bytes, i, expected + [content[|expected|]])
      else Loaded(name, if digest(bytes) == Trim(expected) then Found(bytes) else Failed)
    case _ => t
  }

  function StepTask(digest: Digest, s: System, id: nat): System
    requires id in s.tasks
  {
    match s.tasks[id]
    case OpenModule(name, data) => CreateModule(s, id, name, data)
    case WriteModule(name, data, i, offset) => StepWriteModule(s, id, name, data, i, offset)
    case OpenHash(name, data) => CreateHash(s, id, name, data)
    case WriteHash(name, data, i, offset) => StepWriteHash(s, id, name, data, digest(data), i, offset)
    case UnlinkModule(name) => SetTask(s, id, UnlinkHash(name)).(moduleFiles := s.moduleFiles - {name})
    case UnlinkHash(name) => SetTask(s, id, Removed).(hashFiles := s.hashFiles - {name})
    case t => SetTask(s, id, NextRead(digest, s, t))
  }

  /** What is left of a content after a loss: a prefix, in which some characters read as zero. */
  predicate Remnant(content: string, of: string) {
    |content| <= |of| && forall k | 0 <= k < |content| :: content[k] == of[k] || content[k] == '\0'
  }

  /** No data or directory entry is lost: tasks start, take steps and crash. */
  predicate Lossless(a: Action) {
    a.StartPrecompile? || a.StartRemove? || a.StartLoad? || a.Step? || a.Crash?
  }

  /** A lost directory entry is gone, or names an earlier digest file of the name; a module entry
      may even come to name any module file.  An action that is not possible in a state leaves it as it is. */
  function Apply(digest: Digest, s: System, a: Action): System {
    match a
    case StartPrecompile(id, name, data) => 
      if id in s.tasks then s
      else SetTask(s, id, OpenModule(name, data)).(started := s.started + {(name, data)})
    case StartRemove(id, name) => if id in s.tasks then s else SetTask(s, id, UnlinkModule(name))
    case StartLoad(id, name) => if id in s.tasks then s else SetTask(s, id, CheckModule(name))
    case Step(id) => if id in s.tasks then StepTask(digest, s, id) else s
    case Crash(id) => s.(tasks := s.tasks - {id})
    case LoseModuleData(i, content) => if i in s.moduleData then s.(moduleData := s.moduleData[i := content]) else s
    case LoseHashData(i, earlier, left) =>
      if (i, earlier) in s.hashPast && Remnant(left, earlier) then s.(hashData := s.hashData[i := left]) else s
    case LoseModuleEntry(name, back) =>
      if back.None? then s.(moduleFiles := s.moduleFiles - {name})
      else if back.value in s.moduleData then s.(moduleFiles := s.moduleFiles[name := back.value])
      else s
    case LoseHashEntry(name, back) =>
      if back.None? then s.(hashFiles := s.hashFiles - {name})
      else if back.value in s.hashOwner && s.hashOwner[back.value] == name then
        s.(hashFiles := s.hashFiles[name := back.value])
      else s
  }

  function Run(digest: Digest, s: System, actions: seq<Action>): System {
    if actions == [] then s
    else Apply(digest, Run(digest, s, actions[..|actions| - 1]), actions[|actions| - 1])
  }

  // ----- what every run keeps

  /** Digests all have one positive length, and neither blanks nor zero characters. */
  ghost predicate IsHexDigest(digest: Digest) {
    && (forall a, b :: |digest(a)| == |digest(b)| > 0)
    && (forall a, k | 0 <= k < |digest(a)| :: !IsSpace(digest(a)[k]) && digest(a)[k] != '\0')
  }

  /** c is character k of the digest of a serialization completely written under this name. */
  ghost predicate FromDigest(digest: Digest, written: set<(string, Bytes)>, name: string, k: nat, c: char) {
    exists data :: (name, data) in written && k < |digest(data)| && c == digest(data)[k]
  }

  /** Every character of a digest file, or of what was read of it, is zero or comes, in its
      place, from the digest of a serialization completely written under the file's name. */
  ghost predicate Spliced(digest: Digest, written: set<(string, Bytes)>, name: string, content: string) {
    forall k | 0 <= k < |content| :: content[k] == '\0' || FromDigest(digest, written, name, k, content[k])
  }

  ghost predicate TaskOk(digest: Digest, owner: map<Inode, string>, written: set<(string, Bytes)>, t: Task) {
    match t
    case OpenHash(name, data) => (name, data) in written
    case WriteHash(name, data, i, _) => (name, data) in written && i in owner && owner[i] == name
    case ReadHash(name, _, i, expected) => i in owner && owner[i] == name && Spliced(digest, written, name, expected)
    case Loaded(name, Found(bytes)) => Spliced(digest, written, name, digest(bytes))
    case _ => true
  }

  ghost predicate Inv(digest: Digest, s: System) {
    && (forall i | i in s.hashData :: i in s.hashOwner && Spliced(digest, s.written, s.hashOwner[i], s.hashData[i]))
    && (forall p | p in s.hashPast :: p.0 in s.hashOwner && Spliced(digest, s.written, s.hashOwner[p.0], p.1))
    && (forall name | name in s.hashFiles ::
          s.hashFiles[name] in s.hashOwner && s.hashOwner[s.hashFiles[name]] == name)
    && (forall i | i in s.hashOwner :: i < s.next)
    && (forall id | id in s.tasks :: TaskOk(digest, s.hashOwner, s.written, s.tasks[id]))
  }

  /** Completing more module writes, or creating more digest files, keeps a task in order. */
  lemma TaskOkMonotone(digest: Digest, owner: map<Inode, string>, written: set<(string, Bytes)>,
                       owner': map<Inode, string>, written': set<(string, Bytes)>, t: Task)
    requires TaskOk(digest, owner, written, t) && written <= written'
    requires forall i | i in owner :: i in owner' && owner'[i] == owner[i]
    ensures TaskOk(digest, owner', written', t)
  {
    forall name, content | Spliced(digest, written, name, content)
      ensures Spliced(digest, written', name, content)
    {
      SplicedMonotone(digest, written, written', name, content);
    }
  }

  lemma SplicedMonotone(digest: Digest, written: set<(string, Bytes)>, written': set<(string, Bytes)>,
                        name: string, content: string)
    requires Spliced(digest, written, name, content) && written <= written'
    ensures Spliced(digest, written', name, content)
  {
    forall k | 0 <= k < |content| && content[k] != '\0'
      ensures FromDigest(digest, written', name, k, content[k])
    {
      assert FromDigest(digest, written, name, k, content[k]);
    }
  }

  /** A text without blanks is not changed by trimming; a spliced one has none. */
  lemma SplicedIsTrimmed(digest: Digest, written: set<(string, Bytes)>, name: string, content: string)
    requires IsHexDigest(digest) && Spliced(digest, written, name, content)
    ensures Trim(content) == content
  {
    forall k | 0 <= k < |content|
      ensures !IsSpace(content[k])
    {
      assert content[k] == '\0' || FromDigest(digest, written, name, k, content[k]);
    }
  }

  /** A step that changes only module files and one task keeps the invariant if the task is in order. */
  lemma TaskChangeKeepsInv(digest: Digest, s: System, id: nat, t: Task, s': System)
    requires Inv(digest, s)
    requires forall n | n in s'.hashFiles :: n in s.hashFiles && s'.hashFiles[n] == s.hashFiles[n]
    requires s'.hashData == s.hashData && s'.hashOwner == s.hashOwner && s'.hashPast == s.hashPast
    requires s'.written == s.written && s'.next >= s.next && s'.tasks == s.tasks[id := t]
    requires TaskOk(digest, s.hashOwner, s.written, t)
    ensures Inv(digest, s')
  {
    hide TaskOk, Spliced;
  }

  lemma FinishKeepsInv(digest: Digest, s: System, id: nat, name: string, data: Bytes)
    requires Inv(digest, s)
    ensures Inv(digest, SetTask(s, id, OpenHash(name, data)).(written := s.written + {(name, data)}))
  {
    hide Spliced;
    var written' := s.written + {(name, data)};
    forall other | other in s.tasks
      ensures TaskOk(digest, s.hashOwner, written', s.tasks[other])
    {
      hide TaskOk;
      TaskOkMonotone(digest, s.hashOwner, s.written, s.hashOwner, written', s.tasks[other]);
    }
    forall j | j in s.hashData
      ensures Spliced(digest, written', s.hashOwner[j], s.hashData[j])
    {
      SplicedMonotone(digest, s.written, written', s.hashOwner[j], s.hashData[j]);
    }
    forall p | p in s.hashPast
      ensures Spliced(digest, written', s.hashOwner[p.0], p.1)
    {
      SplicedMonotone(digest, s.written, written', s.hashOwner[p.0], p.1);
    }
  }

  lemma AddKeepsInv(digest: Digest, s: System, name: string)
    requires Inv(digest, s)
    ensures Inv(digest, AddHash(s, name))
  {
    hide Spliced;
    var s' := AddHash(s, name);
    forall id | id in s.tasks
      ensures TaskOk(digest, s'.hashOwner, s.written, s.tasks[id])
    {
      hide TaskOk;
      TaskOkMonotone(digest, s.hashOwner, s.written, s'.hashOwner, s.written, s.tasks[id]);
    }
    hide TaskOk;
  }

  lemma PutKeepsInv(digest: Digest, s: System, i: Inode, content: string)
    requires Inv(digest, s) && i in s.hashOwner && Spliced(digest, s.written, s.hashOwner[i], content)
    ensures Inv(digest, PutHash(s, i, content))
  {
    hide Spliced, TaskOk;
  }

  lemma EntryKeepsInv(digest: Digest, s: System, name: string, i: Inode)
    requires Inv(digest, s) && i in s.hashOwner && s.hashOwner[i] == name
    ensures Inv(digest, s.(hashFiles := s.hashFiles[name := i]))
  {
    hide Spliced, TaskOk;
  }

  /** An empty digest file of a name is opened for writing by a task. */
  lemma OpenedKeepsInv(digest: Digest, s: System, id: nat, name: string, data: Bytes, i: Inode)
    requires Inv(digest, s) && (name, data) in s.written
    requires i in s.hashOwner && s.hashOwner[i] == name
    ensures Inv(digest, SetTask(PutHash(s, i, ""), id, WriteHash(name, data, i, 0)))
  {
    EmptyIsSpliced(digest, s.written, name);
    hide Inv, Spliced;
    PutKeepsInv(digest, s, i, "");
    var s' := PutHash(s, i, "");
    TaskChangeKeepsInv(digest, s', id, WriteHash(name, data, i, 0), SetTask(s', id, WriteHash(name, data, i, 0)));
  }

  lemma CreateHashKeepsInv(digest: Digest, s: System, id: nat, name: string, data: Bytes)
    requires Inv(digest, s) && (name, data) in s.written
    ensures Inv(digest, CreateHash(s, id, name, data))
  {
    hide Spliced, TaskOk, PutHash;
    AddKeepsInv(digest, s, name);
    var s' := if name in s.hashFiles then s else AddHash(s, name);
    OpenedKeepsInv(digest, s', id, name, data, s'.hashFiles[name]);
  }

  lemma WriteHashKeepsInv(digest: Digest, s: System, id: nat, name: string, data: Bytes, i: Inode, offset: nat)
    requires Inv(digest, s) && TaskOk(digest, s.hashOwner, s.written, WriteHash(name, data, i, offset))
    ensures Inv(digest, StepWriteHash(s, id, name, data, digest(data), i, offset))
  {
    if offset < |digest(data)| {
      var content := Content(s.hashData, i);
      assert Spliced(digest, s.written, name, content);
      WriteKeepsSpliced(digest, s.written, name, data, content, offset);
      hide Inv, Spliced, Overlay;
      var content' := Overlay(content, offset, digest(data)[offset], '\0');
      PutKeepsInv(digest, s, i, content');
      var s', t := PutHash(s, i, content'), WriteHash(name, data, i, offset + 1);
      TaskChangeKeepsInv(digest, s', id, t, SetTask(s', id, t));
    } else {
      hide Inv, Spliced;
      TaskChangeKeepsInv(digest, s, id, Precompiled, SetTask(s, id, Precompiled));
    }
  }

  lemma EmptyIsSpliced(digest: Digest, written: set<(string, Bytes)>, name: string)
    ensures Spliced(digest, written, name, "")
  {
  }

  lemma OpenModuleKeepsInv(digest: Digest, s: System, id: nat, name: string, data: Bytes)
    requires Inv(digest, s)
    ensures Inv(digest, CreateModule(s, id, name, data))
  {
    hide Inv, Spliced;
    var s' := CreateModule(s, id, name, data);
    TaskChangeKeepsInv(digest, s, id, s'.tasks[id], s');
  }

  lemma WriteModuleKeepsInv(digest: Digest, s: System, id: nat, name: string, data: Bytes, i: Inode, offset: nat)
    requires Inv(digest, s)
    ensures Inv(digest, StepWriteModule(s, id, name, data, i, offset))
  {
    hide Inv, Spliced, Overlay;
    if offset < |data| {
      var s' := StepWriteModule(s, id, name, data, i, offset);
      TaskChangeKeepsInv(digest, s, id, s'.tasks[id], s');
    } else {
      FinishKeepsInv(digest, s, id, name, data);
    }
  }

  lemma UnlinkKeepsInv(digest: Digest, s: System, id: nat, name: string)
    requires Inv(digest, s)
    ensures Inv(digest, SetTask(s, id, UnlinkHash(name)).(moduleFiles := s.moduleFiles - {name}))
    ensures Inv(digest, SetTask(s, id, Removed).(hashFiles := s.hashFiles - {name}))
  {
    hide Inv, Spliced;
    TaskChangeKeepsInv(digest, s, id, UnlinkHash(name), SetTask(s, id, UnlinkHash(name)).(moduleFiles := s.moduleFiles - {name}));
    TaskChangeKeepsInv(digest, s, id, Removed, SetTask(s, id, Removed).(hashFiles := s.hashFiles - {name}));
  }

  lemma ReadKeepsInv(digest: Digest, s: System, id: nat, t: Task)
    requires IsHexDigest(digest) && Inv(digest, s) && TaskOk(digest, s.hashOwner, s.written, t)
    ensures Inv(digest, SetTask(s, id, NextRead(digest, s, t)))
  {
    hide Spliced, IsHexDigest;
    var t' := NextRead(digest, s, t);
    match t {
      case ReadHash(name, bytes, i, expected) =>
        SplicedIsTrimmed(digest, s.written, name, expected);
        ReadHashKeepsOk(digest, s, name, bytes, i, expected);
      case OpenHashToRead(name, bytes) =>
        EmptyIsSpliced(digest, s.written, name);
      case _ =>
    }
    hide Inv, NextRead;
    TaskChangeKeepsInv(digest, s, id, t', SetTask(s, id, t'));
  }

  lemma StepKeepsInv(digest: Digest, s: System, id: nat)
    requires IsHexDigest(digest) && Inv(digest, s) && id in s.tasks
    ensures Inv(digest, StepTask(digest, s, id))
  {
    hide Spliced, IsHexDigest, NextRead;
    assert TaskOk(digest, s.hashOwner, s.written, s.tasks[id]);
    hide Inv;
    match s.tasks[id] {
      case OpenModule(name, data) => OpenModuleKeepsInv(digest, s, id, name, data);
      case WriteModule(name, data, i, offset) => WriteModuleKeepsInv(digest, s, id, name, data, i, offset);
      case OpenHash(name, data) => CreateHashKeepsInv(digest, s, id, name, data);
      case WriteHash(name, data, i, offset) => WriteHashKeepsInv(digest, s, id, name, data, i, offset);
      case UnlinkModule(name) => UnlinkKeepsInv(digest, s, id, name);
      case UnlinkHash(name) => UnlinkKeepsInv(digest, s, id, name);
      case t => ReadKeepsInv(digest, s, id, t);
    }
  }

  /** Reading one more character, or comparing at the end, keeps what was read spliced. */
  lemma ReadHashKeepsOk(digest: Digest, s: System, name: string, bytes: Bytes, i: Inode, expected: string)
    requires Inv(digest, s) && TaskOk(digest, s.hashOwner, s.written, ReadHash(name, bytes, i, expected))
    requires Trim(expected) == expected
    ensures TaskOk(digest, s.hashOwner, s.written, NextRead(digest, s, ReadHash(name, bytes, i, expected)))
  {
    var content := Content(s.hashData, i);
    assert Spliced(digest, s.written, name, content);
  }

  lemma WriteKeepsSpliced(digest: Digest, written: set<(string, Bytes)>, name: string, data: Bytes, content: string, offset: nat)
    requires Spliced(digest, written, name, content) && (name, data) in written && offset < |digest(data)|
    ensures Spliced(digest, written, name, Overlay(content, offset, digest(data)[offset], '\0'))
  {
    assert FromDigest(digest, written, name, offset, digest(data)[offset]);
  }

  lemma RemnantIsSpliced(digest: Digest, written: set<(string, Bytes)>, name: string, left: string, of: string)
    requires Remnant(left, of) && Spliced(digest, written, name, of)
    ensures Spliced(digest, written, name, left)
  {
  }

  /** Module files may hold and be named anything, and digest files may lose their names. */
  lemma FilesChangeKeepsInv(digest: Digest, s: System, s': System)
    requires Inv(digest, s)
    requires s'.hashData == s.hashData && s'.hashOwner == s.hashOwner && s'.hashPast == s.hashPast
    requires s'.written == s.written && s'.next == s.next && s'.tasks == s.tasks
    requires forall n | n in s'.hashFiles :: n in s.hashFiles && s'.hashFiles[n] == s.hashFiles[n]
    ensures Inv(digest, s')
  {
    hide Spliced, TaskOk;
  }

  lemma LostDataKeepsInv(digest: Digest, s: System, i: Inode, earlier: string, left: string)
    requires Inv(digest, s) && (i, earlier) in s.hashPast && Remnant(left, earlier)
    ensures Inv(digest, s.(hashData := s.hashData[i := left]))
  {
    hide Spliced, TaskOk, Remnant;
    RemnantIsSpliced(digest, s.written, s.hashOwner[(i, earlier).0], left, earlier);
  }

  lemma CrashKeepsInv(digest: Digest, s: System, id: nat)
    requires Inv(digest, s)
    ensures Inv(digest, s.(tasks := s.tasks - {id}))
  {
    hide Spliced, TaskOk;
  }

  lemma StartKeepsInv(digest: Digest, s: System, a: Action)
    requires Inv(digest, s) && (a.StartPrecompile? || a.StartRemove? || a.StartLoad?)
    ensures Inv(digest, Apply(digest, s, a))
  {
    hide Inv, Spliced;
    var s' := Apply(digest, s, a);
    if a.id !in s.tasks {
      TaskChangeKeepsInv(digest, s, a.id, s'.tasks[a.id], s');
    }
  }

  lemma LostEntryKeepsInv(digest: Digest, s: System, name: string, back: Option<Inode>)
    requires Inv(digest, s)
    ensures Inv(digest, Apply(digest, s, LoseHashEntry(name, back)))
    ensures Inv(digest, Apply(digest, s, LoseModuleEntry(name, back)))
  {
    hide Inv;
    match back {
      case None =>
        FilesChangeKeepsInv(digest, s, s.(hashFiles := s.hashFiles - {name}));
        FilesChangeKeepsInv(digest, s, s.(moduleFiles := s.moduleFiles - {name}));
      case Some(i) =>
        if i in s.hashOwner && s.hashOwner[i] == name {
          EntryKeepsInv(digest, s, name, i);
        }
        FilesChangeKeepsInv(digest, s, s.(moduleFiles := s.moduleFiles[name := i]));
    }
  }

  lemma LossKeepsInv(digest: Digest, s: System, a: Action)
    requires Inv(digest, s) && !Lossless(a)
    ensures Inv(digest, Apply(digest, s, a))
  {
    hide Inv, Remnant;
    match a {
      case LoseHashData(i, earlier, left) =>
        if (i, earlier) in s.hashPast && Remnant(left, earlier) {
          LostDataKeepsInv(digest, s, i, earlier, left);
        }
      case LoseHashEntry(name, back) => LostEntryKeepsInv(digest, s, name, back);
      case LoseModuleEntry(name, back) => LostEntryKeepsInv(digest, s, name, back);
      case LoseModuleData(i, content) =>
        FilesChangeKeepsInv(digest, s, s.(moduleData := s.moduleData[i := content]));
    }
  }

  lemma ApplyKeepsInv(digest: Digest, s: System, a: Action)
    requires IsHexDigest(digest) && Inv(digest, s)
    ensures Inv(digest, Apply(digest, s, a))
  {
    hide Inv, IsHexDigest, StepTask;
    if !Lossless(a) {
      LossKeepsInv(digest, s, a);
    } else {
      match a {
        case Step(id) =>
          if id in s.tasks {
            StepKeepsInv(digest, s, id);
          }
        case Crash(id) => CrashKeepsInv(digest, s, id);
        case _ => StartKeepsInv(digest, s, a);
      }
    }
  }

  lemma {:induction false} RunKeepsInv(digest: Digest, actions: seq<Action>)
    requires IsHexDigest(digest)
    ensures Inv(digest, Run(digest, EMPTY, actions))
  {
    if actions != [] {
      RunKeepsInv(digest, actions[..|actions| - 1]);
      ApplyKeepsInv(digest, Run(digest, EMPTY, actions[..|actions| - 1]), actions[|actions| - 1]);
    }
  }
}

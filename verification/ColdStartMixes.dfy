/** Every mix of the given serializations can be read in some run, so the condition under which
    loads can be trusted there is exact, too. */
module ColdStartMixes {
  import opened Common
  import opened ColdStart
  import opened ColdStartGuarantee
  import opened ColdStartInterleaved

  /** In every run without losses that writes, in whole or in part, only serializations from w under
      the name, a load of that name reports only genuine ones. */
  ghost predicate LoadsAreGenuineAmong(digest: Digest, name: string, w: set<Bytes>) {
    forall s, id, bytes | Reaches(digest, EMPTY, s) && StartedWithin(s, name, w) && Reports(s, id, name, bytes) ::
      Genuine(digest, w, bytes)
  }

  /** No mix of serializations has a digest pieced together from theirs without being one of them. */
  ghost predicate MixFree(digest: Digest, w: set<Bytes>) {
    forall bytes | IsMix(w, bytes) && IsSplice(digest, w, digest(bytes)) :: Genuine(digest, w, bytes)
  }

  lemma ReportedIsMix(digest: Digest, s: System, id: nat, name: string, bytes: Bytes, w: set<Bytes>)
    requires IsHexDigest(digest) && Reaches(digest, EMPTY, s)
    requires StartedWithin(s, name, w) && Reports(s, id, name, bytes)
    ensures IsMix(w, bytes) && IsSplice(digest, w, digest(bytes))
  {
    var actions :| AllLossless(actions) && Run(digest, EMPTY, actions) == s;
    RunKeepsMix(digest, actions);
    assert TaskMixed(s.moduleOwner, s.started, s.tasks[id]);
    assert Of(s.started, name) <= w;
    MixMonotone(Of(s.started, name), w, bytes);
    assert ReachesWithLosses(digest, EMPTY, s);
    ReportedIsSplice(digest, s, id, name, bytes, w);
  }

  // ----- writing a mix

  /** Writer j will write its own byte at position j of the target; the others leave a gap. */
  predicate Writes(target: Bytes, ds: seq<Bytes>, j: nat)
    requires j < |target| == |ds|
  {
    j < |ds[j]| && ds[j][j] == target[j]
  }

  /** One writer a position, each with at least as many bytes as come before its position; gaps are
      zeros, and the last position is none. */
  ghost predicate Composes(target: Bytes, ds: seq<Bytes>) {
    && |ds| == |target|
    && (forall j | 0 <= j < |ds| :: j <= |ds[j]|)
    && (forall j | 0 <= j < |ds| :: Writes(target, ds, j) || target[j] == 0)
    && (|target| > 0 ==> Writes(target, ds, |target| - 1))
  }

  /** s and t differ at most in tasks, module data and what was started, and both have this name's files. */
  ghost predicate SameFiles(s: System, t: System) {
    && t.moduleFiles == s.moduleFiles && t.hashFiles == s.hashFiles && t.hashData == s.hashData
    && t.written == s.written
  }

  ghost predicate StartedMore(s: System, t: System, name: string, ds: seq<Bytes>) {
    forall p | p in t.started :: p in s.started || (p.0 == name && p.1 in ds)
  }

  /** Writers base+j to base+n-1 stand before their positions. */
  ghost predicate WritersFrom(t: System, base: nat, name: string, ds: seq<Bytes>, i: Inode, j: nat, n: nat)
    requires n <= |ds|
  {
    forall id: nat | base + j <= id < base + n ::
      id in t.tasks && t.tasks[id] == WriteModule(name, ds[id - base], i, id - base)
  }

  /** Writers base to base+n-1 stand before their positions. */
  ghost predicate Placed(s: System, base: nat, name: string, ds: seq<Bytes>, n: nat, t: System)
    requires n <= |ds| && name in s.moduleFiles
  {
    && SameFiles(s, t) && StartedMore(s, t, name, ds)
    && (forall id | id in t.tasks :: id < base + n)
    && WritersFrom(t, base, name, ds, s.moduleFiles[name], 0, n)
  }

  lemma PlacedOne(s: System, base: nat, name: string, ds: seq<Bytes>, n: nat, m: System, t: System)
    requires n < |ds| && name in s.moduleFiles && Placed(s, base, name, ds, n, m)
    requires ModuleWritten(m, base + n, name, ds[n], n, t)
    ensures Placed(s, base, name, ds, n + 1, t)
  {
    assert ds[n] in ds;
  }

  lemma {:induction false} PlaceWriters(digest: Digest, s: System, base: nat, name: string, ds: seq<Bytes>, n: nat)
    returns (t: System)
    requires n <= |ds| && name in s.moduleFiles && forall id | id in s.tasks :: id < base
    requires forall j | 0 <= j < |ds| :: j <= |ds[j]|
    ensures Reaches(digest, s, t) && Placed(s, base, name, ds, n, t)
  {
    hide Reaches;
    if n == 0 {
      ReachSelf(digest, s);
      t := s;
    } else {
      var m := PlaceWriters(digest, s, base, name, ds, n - 1);
      assert base + (n - 1) !in m.tasks;
      t := ReachModule(digest, m, base + (n - 1), name, ds[n - 1], n - 1);
      ReachTrans(digest, s, m, t);
      PlacedOne(s, base, name, ds, n - 1, m, t);
    }
  }

  /** The file holds the target up to the last position written; what is missing before j is zero. */
  ghost predicate FilledTo(target: Bytes, ds: seq<Bytes>, content: Bytes, j: nat)
    requires |target| == |ds|
  {
    && j <= |target| && |content| <= j && content == target[..|content|]
    && (forall k | |content| <= k < j :: target[k] == 0)
    && (j > 0 && Writes(target, ds, j - 1) ==> |content| == j)
  }

  lemma FillOne(target: Bytes, ds: seq<Bytes>, content: Bytes, j: nat)
    requires Composes(target, ds) && FilledTo(target, ds, content, j) && j < |target|
    ensures Writes(target, ds, j) ==> FilledTo(target, ds, Overlay(content, j, target[j], 0), j + 1)
    ensures !Writes(target, ds, j) ==> FilledTo(target, ds, content, j + 1)
  {
    if Writes(target, ds, j) {
      var r := Overlay(content, j, target[j], 0);
      assert r == target[..j + 1];
    }
  }

  /** A writer's step at its own position. */
  lemma WriteByte(digest: Digest, s: System, id: nat, name: string, data: Bytes, i: Inode, j: nat) returns (t: System)
    requires id in s.tasks && s.tasks[id] == WriteModule(name, data, i, j) && j < |data| && i in s.moduleData
    ensures Reaches(digest, s, t) && t.tasks == s.tasks[id := WriteModule(name, data, i, j + 1)]
    ensures t.moduleData == s.moduleData[i := Overlay(s.moduleData[i], j, data[j], 0)]
    ensures t == s.(tasks := t.tasks, moduleData := t.moduleData)
  {
    t := StepTask(digest, s, id);
    hide Reaches;
    ReachSelf(digest, t);
    ReachStep(digest, s, id, t);
  }

  /** Writer j writes its byte, if it has one for its position. */
  lemma WriteOne(digest: Digest, s: System, base: nat, name: string, target: Bytes, ds: seq<Bytes>, i: Inode, j: nat)
    returns (t: System)
    requires Composes(target, ds) && j < |target|
    requires |target| == |ds| && WritersFrom(s, base, name, ds, i, j, |ds|)
    requires i in s.moduleData && FilledTo(target, ds, s.moduleData[i], j)
    ensures Reaches(digest, s, t) && WritersFrom(t, base, name, ds, i, j + 1, |ds|)
    ensures i in t.moduleData && FilledTo(target, ds, t.moduleData[i], j + 1)
    ensures t.tasks.Keys == s.tasks.Keys && t == s.(tasks := t.tasks, moduleData := t.moduleData)
  {
    hide Reaches;
    FillOne(target, ds, s.moduleData[i], j);
    hide Composes, FilledTo, Overlay;
    assert base + j in s.tasks && s.tasks[base + j] == WriteModule(name, ds[j], i, j);
    if Writes(target, ds, j) {
      t := WriteByte(digest, s, base + j, name, ds[j], i, j);
    } else {
      ReachSelf(digest, s);
      t := s;
    }
  }

  /** Each writer that has a byte for its position writes it. */
  lemma {:induction false} WriteOwn(digest: Digest, s: System, base: nat, name: string, target: Bytes, ds: seq<Bytes>,
                                    i: Inode, j: nat) returns (t: System)
    requires Composes(target, ds) && j <= |target|
    requires |target| == |ds| && WritersFrom(s, base, name, ds, i, j, |ds|)
    requires i in s.moduleData && FilledTo(target, ds, s.moduleData[i], j)
    ensures Reaches(digest, s, t) && i in t.moduleData && t.moduleData[i] == target
    ensures t.tasks.Keys == s.tasks.Keys && t == s.(tasks := t.tasks, moduleData := t.moduleData)
    decreases |target| - j
  {
    hide Reaches;
    if j == |target| {
      ReachSelf(digest, s);
      t := s;
    } else {
      hide Composes, FilledTo, WritersFrom;
      var s' := WriteOne(digest, s, base, name, target, ds, i, j);
      t := WriteOwn(digest, s', base, name, target, ds, i, j + 1);
      ReachTrans(digest, s, s', t);
    }
  }

  // ----- reading a part of it

  /** If the file is truncated now, the load takes what it has read for the whole module. */
  lemma ReadAfterCut(digest: Digest, s: System, id: nat, name: string, i: Inode, bytes: Bytes) returns (t: System)
    requires IsHexDigest(digest) && id in s.tasks && s.tasks[id] == ReadModule(name, i, bytes)
    requires Content(s.moduleData, i) == []
    requires name in s.hashFiles && Content(s.hashData, s.hashFiles[name]) == digest(bytes)
    ensures Reaches(digest, s, t) && Reports(t, id, name, bytes) && t.started == s.started
  {
    hide Reaches;
    DigestIsTrimmed(digest, bytes);
    t := LoadFromHash(digest, s, id, name, bytes);
    LoadStep(digest, s, id, ReadModule(name, i, bytes), OpenHashToRead(name, bytes), t);
    assert s.tasks[id := ReadModule(name, i, bytes)] == s.tasks;
  }

  lemma TruncatedRead(digest: Digest, s: System, id: nat, name: string, bytes: Bytes, data: Bytes) returns (t: System)
    requires IsHexDigest(digest) && id !in s.tasks && id + 1 !in s.tasks
    requires name in s.moduleFiles && bytes <= Content(s.moduleData, s.moduleFiles[name])
    requires name in s.hashFiles && Content(s.hashData, s.hashFiles[name]) == digest(bytes)
    ensures Reaches(digest, s, t) && Reports(t, id, name, bytes) && t.started == s.started + {(name, data)}
  {
    hide Reaches, IsHexDigest, Reports;
    var reading := StartReading(digest, s, id, name, bytes);
    var cut := ReachModule(digest, reading, id + 1, name, data, 0);
    ReachTrans(digest, s, reading, cut);
    t := ReadAfterCut(digest, cut, id, name, s.moduleFiles[name], bytes);
    ReachTrans(digest, s, cut, t);
  }

  // ----- every mix is reported

  ghost function ByteDonor(w: set<Bytes>, k: nat, b: byte): (data: Bytes)
    requires IsMixAt(w, k, b)
    ensures data in w && k <= |data| && (b == 0 || (k < |data| && data[k] == b))
    ensures HasByteAt(w, k, b) ==> k < |data| && data[k] == b
  {
    if HasByteAt(w, k, b) then
      var data :| data in w && k < |data| && data[k] == b;
      data
    else
      var data :| data in w && k + 1 < |data|;
      data
  }

  /** The writers of a mix; its last position may be left to a gap. */
  lemma MixDonors(w: set<Bytes>, bytes: Bytes) returns (ds: seq<Bytes>)
    requires IsMix(w, bytes)
    ensures |ds| == |bytes| && forall data | data in ds :: data in w
    ensures forall k | 0 <= k < |ds| :: k <= |ds[k]| && (Writes(bytes, ds, k) || bytes[k] == 0)
    ensures forall k | 0 <= k < |ds| :: HasByteAt(w, k, bytes[k]) ==> Writes(bytes, ds, k)
  {
    assert forall k | 0 <= k < |bytes| :: IsMixAt(w, k, bytes[k]);
    ds := seq(|bytes|, k requires 0 <= k < |bytes| => ByteDonor(w, k, bytes[k]));
  }

  /** A target that begins with the mix and ends with a byte that is written, and its writers. */
  lemma TargetFor(w: set<Bytes>, bytes: Bytes) returns (target: Bytes, ds: seq<Bytes>)
    requires IsMix(w, bytes)
    ensures bytes <= target && Composes(target, ds) && forall data | data in ds :: data in w
  {
    var n := |bytes|;
    ds := MixDonors(w, bytes);
    target := bytes;
    if n > 0 && !HasByteAt(w, n - 1, bytes[n - 1]) {
      assert IsMixAt(w, n - 1, bytes[n - 1]);
      var data :| data in w && n - 1 + 1 < |data|;
      hide IsMix, HasByteAt, GoesPast;
      WritesPrefix(bytes, ds, data[n], data);
      target, ds := bytes + [data[n]], ds + [data];
    }
  }

  lemma WritesPrefix(bytes: Bytes, ds: seq<Bytes>, b: byte, data: Bytes)
    requires |ds| == |bytes|
    ensures forall k | 0 <= k < |ds| :: Writes(bytes + [b], ds + [data], k) == Writes(bytes, ds, k)
  {
  }

  lemma MixIsReported(digest: Digest, name: string, w: set<Bytes>, bytes: Bytes) returns (s: System, id: nat)
    requires IsHexDigest(digest) && IsMix(w, bytes) && IsSplice(digest, w, digest(bytes))
    ensures Reaches(digest, EMPTY, s) && StartedWithin(s, name, w) && Reports(s, id, name, bytes)
  {
    hide Reaches, IsMix, Composes, IsSplice, Reports;
    var hex := digest(bytes);
    var spliced, donor := SpliceDigest(digest, name, w, hex);
    hide IsHexDigest;
    var target, ds := TargetFor(w, bytes);
    id := |hex| + |ds| + 1;
    var mixed := ComposeTarget(digest, spliced, |hex|, name, target, ds, donor);
    ReachTrans(digest, EMPTY, spliced, mixed);
    s := TruncatedRead(digest, mixed, id, name, bytes, donor);
    ReachTrans(digest, EMPTY, mixed, s);
    forall data | (name, data) in s.started
      ensures data in w
    {
      assert (name, data) in spliced.started || data in ds + [donor];
    }
  }

  /** Place the writers, truncate the file once more, and let each write its own byte. */
  lemma ComposeTarget(digest: Digest, s: System, base: nat, name: string, target: Bytes, ds: seq<Bytes>, data: Bytes)
    returns (t: System)
    requires Composes(target, ds) && name in s.moduleFiles && forall id | id in s.tasks :: id < base
    ensures Reaches(digest, s, t) && SameFiles(s, t) && StartedMore(s, t, name, ds + [data])
    ensures Content(t.moduleData, t.moduleFiles[name]) == target
    ensures forall id | id in t.tasks :: id <= base + |ds|
  {
    hide Reaches;
    var i := s.moduleFiles[name];
    var placed := PlaceWriters(digest, s, base, name, ds, |ds|);
    var id := base + |ds|;
    assert id !in placed.tasks;
    var cut := ReachModule(digest, placed, id, name, data, 0);
    ReachTrans(digest, s, placed, cut);
    t := WriteOwn(digest, cut, base, name, target, ds, i, 0);
    ReachTrans(digest, s, cut, t);
  }

  /** Loads can be trusted in all such runs exactly if no mix has a spliced digest. */
  lemma LoadsAreGenuineIffMixFree(digest: Digest, name: string, w: set<Bytes>)
    requires IsHexDigest(digest)
    ensures LoadsAreGenuineAmong(digest, name, w) <==> MixFree(digest, w)
  {
    hide Reaches, Reports, StartedWithin, Genuine, IsMix, IsSplice, IsHexDigest;
    if MixFree(digest, w) {
      forall s, id, bytes | Reaches(digest, EMPTY, s) && StartedWithin(s, name, w) && Reports(s, id, name, bytes)
        ensures Genuine(digest, w, bytes)
      {
        ReportedIsMix(digest, s, id, name, bytes, w);
      }
    }
    if LoadsAreGenuineAmong(digest, name, w) {
      forall bytes | IsMix(w, bytes) && IsSplice(digest, w, digest(bytes))
        ensures Genuine(digest, w, bytes)
      {
        var s, id := MixIsReported(digest, name, w, bytes);
      }
    }
  }

  lemma SmallMix(w: set<Bytes>, bytes: Bytes)
    requires (forall data | data in w :: |data| == 1) && IsMix(w, bytes) && bytes != []
    ensures bytes in w
  {
    assert IsMixAt(w, 0, bytes[0]);
    assert |bytes| > 1 ==> IsMixAt(w, 1, bytes[1]);
    var data :| data in w && data[0] == bytes[0];
    assert bytes == data;
  }

  lemma EmptyIsNoSplice()
    ensures !IsSplice(MixingDigest, {[1], [2]}, MixingDigest([]))
  {
    assert MixingDigest([])[0] == 'e';
    assert !HasCharAt(MixingDigest, {[1], [2]}, 0, 'e');
  }

  /** This asks for less than splice-freedom: here the spliced digest belongs to no mix. */
  lemma MixFreeIsWeaker()
    ensures MixFree(MixingDigest, {[1], [2]}) && !SpliceFree(MixingDigest, {[1], [2]})
  {
    hide IsMix, Genuine, IsSplice;
    SplicesExist();
    EmptyIsNoSplice();
    var w: set<Bytes> := {[1], [2]};
    forall bytes | IsMix(w, bytes) && IsSplice(MixingDigest, w, MixingDigest(bytes))
      ensures Genuine(MixingDigest, w, bytes)
    {
      SmallMix(w, bytes);
      InIsGenuine(MixingDigest, w, bytes);
    }
  }

  lemma InIsGenuine(digest: Digest, w: set<Bytes>, bytes: Bytes)
    requires bytes in w
    ensures Genuine(digest, w, bytes)
  {
  }
}

/** When loads can be trusted, in terms of the given serializations' digests alone. */
module ColdStartDigests {
  import opened ColdStart
  import opened ColdStartGuarantee
  import opened Text

  /** Every text pieced together from the digests of w is one of them.  For a finite w this can be
      checked: there are only so many such texts, and no other byte string is asked for its digest. */
  ghost predicate SpliceClosed(digest: Digest, w: set<Bytes>) {
    forall hex: string | |hex| == |digest([])| && IsSplice(digest, w, hex) :: IsDigestOf(digest, w, hex)
  }

  ghost predicate IsDigestOf(digest: Digest, w: set<Bytes>, hex: string) {
    exists data | data in w :: digest(data) == hex
  }

  ghost predicate AgreeOn(digest: Digest, digest': Digest, w: set<Bytes>) {
    forall data | data in w :: digest(data) == digest'(data)
  }

  /** The digests of w being what they are, loads are genuine whatever the digests of all else. */
  ghost predicate LoadsAreGenuineFor(digest: Digest, name: string, w: set<Bytes>, losses: bool) {
    forall digest': Digest | IsHexDigest(digest') && AgreeOn(digest, digest', w) ::
      LoadsAreGenuine(digest', name, w, losses)
  }

  lemma SpliceOfOne(digest: Digest, w: set<Bytes>, hex: string) returns (data: Bytes)
    requires IsSplice(digest, w, hex) && |hex| > 0
    ensures data in w
  {
    assert HasCharAt(digest, w, 0, hex[0]);
    data :| data in w && 0 < |digest(data)| && digest(data)[0] == hex[0];
  }

  lemma SameSplices(digest: Digest, digest': Digest, w: set<Bytes>, hex: string)
    requires AgreeOn(digest, digest', w) && IsSplice(digest', w, hex)
    ensures IsSplice(digest, w, hex)
  {
    forall k | 0 <= k < |hex|
      ensures HasCharAt(digest, w, k, hex[k])
    {
      assert HasCharAt(digest', w, k, hex[k]);
    }
  }

  lemma ClosedIsSpliceFree(digest: Digest, digest': Digest, w: set<Bytes>)
    requires IsHexDigest(digest) && IsHexDigest(digest') && AgreeOn(digest, digest', w) && SpliceClosed(digest, w)
    ensures SpliceFree(digest', w)
  {
    forall bytes | IsSplice(digest', w, digest'(bytes))
      ensures Genuine(digest', w, bytes)
    {
      SameSplices(digest, digest', w, digest'(bytes));
      var data := SpliceOfOne(digest', w, digest'(bytes));
      assert |digest'(bytes)| == |digest'(data)| == |digest([])|;
      assert IsDigestOf(digest, w, digest'(bytes));
    }
  }

  /** Some byte string is not in w. */
  lemma {:induction false} Outside(w: set<Bytes>) returns (bytes: Bytes)
    ensures forall data | data in w :: |data| < |bytes|
  {
    if w == {} {
      bytes := [0];
    } else {
      var data :| data in w;
      var rest := Outside(w - {data});
      bytes := rest + data + [0];
    }
  }

  /** The same digest but for one byte string, which is given the text as its digest. */
  function Forged(digest: Digest, bytes: Bytes, hex: string): Digest {
    (b: Bytes) => if b == bytes then hex else digest(b)
  }

  lemma ForgedIsHex(digest: Digest, w: set<Bytes>, bytes: Bytes, hex: string)
    requires IsHexDigest(digest) && IsSplice(digest, w, hex) && |hex| == |digest([])|
    ensures IsHexDigest(Forged(digest, bytes, hex))
  {
    forall k | 0 <= k < |hex|
      ensures !IsSpace(hex[k]) && hex[k] != '\0'
    {
      assert HasCharAt(digest, w, k, hex[k]);
    }
  }

  lemma ForgedIsSplice(digest: Digest, w: set<Bytes>, bytes: Bytes, hex: string)
    requires IsSplice(digest, w, hex) && bytes !in w && !IsDigestOf(digest, w, hex)
    ensures !SpliceFree(Forged(digest, bytes, hex), w)
  {
    var digest' := Forged(digest, bytes, hex);
    assert AgreeOn(digest', digest, w);
    SameSplices(digest', digest, w, hex);
    assert IsSplice(digest', w, digest'(bytes));
    assert !Genuine(digest', w, bytes);
  }

  /** Loads can be trusted on the strength of the digests of w exactly if these are closed under
      piecing together. */
  lemma LoadsAreGenuineIffSpliceClosed(digest: Digest, name: string, w: set<Bytes>, losses: bool)
    requires IsHexDigest(digest)
    ensures LoadsAreGenuineFor(digest, name, w, losses) <==> SpliceClosed(digest, w)
  {
    hide LoadsAreGenuine, SpliceFree, IsSplice, IsDigestOf, IsHexDigest;
    if SpliceClosed(digest, w) {
      forall digest': Digest | IsHexDigest(digest') && AgreeOn(digest, digest', w)
        ensures LoadsAreGenuine(digest', name, w, losses)
      {
        ClosedIsSpliceFree(digest, digest', w);
        LoadsAreGenuineIffSpliceFree(digest', name, w, losses);
      }
    }
    if LoadsAreGenuineFor(digest, name, w, losses) {
      forall hex: string | |hex| == |digest([])| && IsSplice(digest, w, hex)
        ensures IsDigestOf(digest, w, hex)
      {
        if !IsDigestOf(digest, w, hex) {
          var bytes := Outside(w);
          var digest' := Forged(digest, bytes, hex);
          assert AgreeOn(digest, digest', w);
          ForgedIsHex(digest, w, bytes, hex);
          ForgedIsSplice(digest, w, bytes, hex);
          LoadsAreGenuineIffSpliceFree(digest', name, w, losses);
        }
      }
    }
  }

  // ----- two serializations

  ghost predicate DifferAtMostOnce(s: string, t: string)
    requires |s| == |t|
  {
    forall p, q | 0 <= p < q < |s| :: s[p] == t[p] || s[q] == t[q]
  }

  lemma TwoDonors(digest: Digest, a: Bytes, b: Bytes, hex: string)
    requires IsHexDigest(digest) && |hex| == |digest(a)|
    ensures IsSplice(digest, {a, b}, hex) <==> forall k | 0 <= k < |hex| :: hex[k] == digest(a)[k] || hex[k] == digest(b)[k]
  {
    if IsSplice(digest, {a, b}, hex) {
      forall k | 0 <= k < |hex|
        ensures hex[k] == digest(a)[k] || hex[k] == digest(b)[k]
      {
        assert HasCharAt(digest, {a, b}, k, hex[k]);
      }
    }
    if forall k | 0 <= k < |hex| :: hex[k] == digest(a)[k] || hex[k] == digest(b)[k] {
      forall k | 0 <= k < |hex|
        ensures HasCharAt(digest, {a, b}, k, hex[k])
      {
        assert digest(a)[k] == hex[k] || digest(b)[k] == hex[k];
      }
    }
  }

  /** If two texts differ at most once, choosing from both at each position yields one of them. */
  lemma OneChoice(s: string, t: string, hex: string)
    requires |s| == |t| == |hex| && DifferAtMostOnce(s, t)
    requires forall k | 0 <= k < |hex| :: hex[k] == s[k] || hex[k] == t[k]
    ensures hex == s || hex == t
  {
    if k :| 0 <= k < |hex| && hex[k] != s[k] {
      assert s[k] != t[k];
      forall q | 0 <= q < |hex|
        ensures hex[q] == t[q]
      {
        assert q != k ==> s[q] == t[q];
      }
    }
  }

  /** Two serializations of a name can be trusted exactly if their digests differ in at most one
      character. */
  lemma TwoAreClosedIff(digest: Digest, a: Bytes, b: Bytes)
    requires IsHexDigest(digest)
    ensures |digest(a)| == |digest(b)|
    ensures SpliceClosed(digest, {a, b}) <==> DifferAtMostOnce(digest(a), digest(b))
  {
    hide IsSplice;
    var s, t, w := digest(a), digest(b), {a, b};
    assert |s| == |t| == |digest([])|;
    if DifferAtMostOnce(s, t) {
      forall hex: string | |hex| == |s| && IsSplice(digest, w, hex)
        ensures IsDigestOf(digest, w, hex)
      {
        TwoDonors(digest, a, b, hex);
        OneChoice(s, t, hex);
      }
    }
    if !DifferAtMostOnce(s, t) {
      TwoAreNotClosed(digest, a, b);
    }
  }

  lemma Crossed(s: string, t: string, q: nat) returns (hex: string)
    requires |s| == |t| && q <= |s|
    ensures |hex| == |s| && forall k | 0 <= k < |hex| :: hex[k] == if k < q then s[k] else t[k]
  {
    hex := s[..q] + t[q..];
  }

  /** The first part of one digest and the rest of the other, parting between two differences. */
  lemma TwoAreNotClosed(digest: Digest, a: Bytes, b: Bytes)
    requires IsHexDigest(digest) && |digest(a)| == |digest(b)| && !DifferAtMostOnce(digest(a), digest(b))
    ensures !SpliceClosed(digest, {a, b})
  {
    hide IsSplice;
    var s, t := digest(a), digest(b);
    assert |s| == |digest([])|;
    var p, q :| 0 <= p < q < |s| && s[p] != t[p] && s[q] != t[q];
    var hex := Crossed(s, t, q);
    TwoDonors(digest, a, b, hex);
    hide IsHexDigest;
    assert hex[p] == s[p] && hex[q] == t[q];
    assert !IsDigestOf(digest, {a, b}, hex);
  }
}

/** Deep equality of fragmented buffers and of object arrays, from protocol/SecProtocol.c. */
module DispatchData {
  import opened Bytes

  /** dispatch_data_t: an immutable byte string stored as a list of contiguous regions. */
  class DispatchData {
    const regions: seq<seq<Byte>>

    constructor (regions: seq<seq<Byte>>)
      ensures this.regions == regions
    {
      this.regions := regions;
    }
  }

  /** The offset of region `i`. */
  function Offset(regions: seq<seq<Byte>>, i: nat): nat
    requires i <= |regions|
  {
    |Flatten(regions[..i])|
  }

  /** Region `i` occupies the bytes from its offset to that of the next region. */
  lemma RegionAt(regions: seq<seq<Byte>>, i: nat)
    requires i < |regions|
    ensures Offset(regions, i + 1) == Offset(regions, i) + |regions[i]| <= |Flatten(regions)|
    ensures Flatten(regions)[Offset(regions, i)..Offset(regions, i + 1)] == regions[i]
  {
    PrefixFlattened(regions, i + 1);
    assert regions[..i + 1][..i] == regions[..i];
  }

  lemma {:induction false} PrefixFlattened(regions: seq<seq<Byte>>, i: nat)
    requires i <= |regions|
    ensures Flatten(regions[..i]) <= Flatten(regions)
    decreases |regions| - i
  {
    if i < |regions| {
      PrefixFlattened(regions, i + 1);
      assert regions[..i + 1][..i] == regions[..i];
    } else {
      assert regions[..i] == regions;
    }
  }

  /** Byte `k` of region `i`. */
  lemma RegionByte(regions: seq<seq<Byte>>, i: nat)
    requires i < |regions|
    ensures Offset(regions, i + 1) == Offset(regions, i) + |regions[i]| <= |Flatten(regions)|
    ensures forall k :: 0 <= k < |regions[i]| ==> Flatten(regions)[Offset(regions, i) + k] == regions[i][k]
  {
    hide Flatten;
    RegionAt(regions, i);
    forall k | 0 <= k < |regions[i]|
      ensures Flatten(regions)[Offset(regions, i) + k] == regions[i][k]
    {
      assert Flatten(regions)[Offset(regions, i)..Offset(regions, i + 1)][k] == regions[i][k];
    }
  }

  /** Equality of the byte strings, however they are cut into regions. */
  predicate SameBytes(left: seq<seq<Byte>>, right: seq<seq<Byte>>) {
    Flatten(left) == Flatten(right)
  }

  /** A missing buffer equals only a missing buffer. */
  predicate SameData(left: DispatchData?, right: DispatchData?) {
    if left == null || right == null then left == right else SameBytes(left.regions, right.regions)
  }

  /** Two byte strings agree on the positions in [from, to). */
  ghost predicate Agree(x: seq<Byte>, y: seq<Byte>, from: int, to: int) {
    forall p :: 0 <= from <= p < to && p < |x| && p < |y| ==> x[p] == y[p]
  }

  /** What one comparison of overlapping slices tells about the byte strings. */
  lemma OverlapCompared(
    x: seq<Byte>, y: seq<Byte>, a: seq<Byte>, b: seq<Byte>, aOff: nat, bOff: nat, start: nat, end: nat)
    requires aOff <= start < end <= aOff + |a| <= |x| && bOff <= start && end <= bOff + |b| <= |y|
    requires forall k :: 0 <= k < |a| ==> x[aOff + k] == a[k]
    requires forall k :: 0 <= k < |b| ==> y[bOff + k] == b[k]
    ensures b[start - bOff..end - bOff] == a[start - aOff..end - aOff] <==> Agree(x, y, start, end)
  {
    var s, t := b[start - bOff..end - bOff], a[start - aOff..end - aOff];
    forall p | start <= p < end
      ensures x[p] == t[p - start] && y[p] == s[p - start]
    {
      assert x[aOff + (p - aOff)] == a[p - aOff] && y[bOff + (p - bOff)] == b[p - bOff];
    }
    if Agree(x, y, start, end) {
      forall k | 0 <= k < end - start
        ensures s[k] == t[k]
      {
        assert x[start + k] == y[start + k];
      }
    }
  }

  /**
    The nested walks with their early exits: the right buffer is walked once for every region of the
    left one, the inner walk stops when it has passed the left region, and both stop at a difference.
    The answer depends on the byte strings only, not on how they are cut into regions.
   */
  method DispatchDataAreEqual(left: DispatchData?, right: DispatchData?) returns (equal: bool)
    ensures equal == SameData(left, right)
  {
    if left == null || right == null || left == right {
      return left == right;
    }
    ghost var x, y := Flatten(left.regions), Flatten(right.regions);
    if |Flatten(left.regions)| != |Flatten(right.regions)| {
      return false;
    }
    equal := true;
    var l, loffset := 0, 0;
    assert left.regions[..0] == [];
    while l < |left.regions|
      invariant l <= |left.regions| && loffset == Offset(left.regions, l)
      invariant equal && Agree(x, y, 0, loffset)
    {
      RegionByte(left.regions, l);
      var lbuffer := left.regions[l];
      equal := CompareRight(x, y, lbuffer, loffset, right.regions);
      if !equal {
        return;
      }
      l, loffset := l + 1, loffset + |lbuffer|;
    }
    assert left.regions[..l] == left.regions;
  }

  /** The inner walk, for the left region `lbuffer` at `loffset`. */
  method CompareRight(ghost x: seq<Byte>, ghost y: seq<Byte>, lbuffer: seq<Byte>, loffset: nat, right: seq<seq<Byte>>)
    returns (equal: bool)
    requires y == Flatten(right) && |x| == |y| && loffset + |lbuffer| <= |x|
    requires forall k :: 0 <= k < |lbuffer| ==> x[loffset + k] == lbuffer[k]
    ensures equal <==> Agree(x, y, loffset, loffset + |lbuffer|)
  {
    equal := true;
    var lsize := |lbuffer|;
    var r, roffset := 0, 0;
    assert right[..0] == [];
    while r < |right|
      invariant r <= |right| && roffset == Offset(right, r)
      invariant equal && Agree(x, y, loffset, if roffset < loffset + lsize then roffset else loffset + lsize)
    {
      RegionByte(right, r);
      var rbuffer := right[r];
      var rsize := |rbuffer|;
      var start := if loffset > roffset then loffset else roffset;
      var end := if loffset + lsize < roffset + rsize then loffset + lsize else roffset + rsize;
      if start < end {
        OverlapCompared(x, y, lbuffer, rbuffer, loffset, roffset, start, end);
        equal := rbuffer[start - roffset..end - roffset] == lbuffer[start - loffset..end - loffset];
        if !equal {
          return;
        }
      } else if roffset > loffset + lsize {
        // the walk over the right buffer is past the left region
        return;
      }
      // otherwise the right region ends before the left one begins, or the two only touch
      r, roffset := r + 1, roffset + rsize;
    }
    assert right[..r] == right;
  }

  // ---------------------------------------------------------------- arrays of objects

  /** sec_array_t: a missing array counts and applies as an empty one. */
  function Items<T>(objects: Option<seq<T>>): seq<T> {
    objects.GetOr([])
  }

  /** Equal lengths and equal elements at every index. */
  ghost predicate Pointwise<T>(a: seq<T>, b: seq<T>, eq: (T, T) -> bool) {
    |a| == |b| && forall i :: 0 <= i < |a| ==> eq(a[i], b[i])
  }

  /** The quadratic walk: for every element of the first array, all of the second are visited. */
  method SecArraysAreEqual<T>(arrayA: Option<seq<T>>, arrayB: Option<seq<T>>, eq: (T, T) -> bool) returns (equal: bool)
    ensures equal == Pointwise(Items(arrayA), Items(arrayB), eq)
  {
    var a, b := Items(arrayA), Items(arrayB);
    if |a| != |b| {
      return false;
    }
    equal := true;
    var indexA := 0;
    while indexA < |a|
      invariant indexA <= |a| && equal
      invariant forall i :: 0 <= i < indexA ==> eq(a[i], b[i])
    {
      var indexB := 0;
      while indexB < |b|
        invariant indexB <= |b| && equal
        invariant indexA < indexB ==> eq(a[indexA], b[indexA])
      {
        if indexA == indexB {
          equal := equal && eq(a[indexA], b[indexB]);
          if !equal {
            return;
          }
        }
        indexB := indexB + 1;
      }
      indexA := indexA + 1;
    }
  }

  // ---------------------------------------------------------------- peer and challenge metadata

  /** The deep equalities of other frameworks: of certificates and of XPC objects. */
  datatype Foreign<!C, !X> = Foreign(cfEqual: (C, C) -> bool, xpcEqual: (X, X) -> bool)

  ghost predicate Equivalence<T(!new)>(eq: (T, T) -> bool) {
    && (forall a :: eq(a, a))
    && (forall a, b :: eq(a, b) ==> eq(b, a))
    && (forall a, b, c :: eq(a, b) && eq(b, c) ==> eq(a, c))
  }

  /** Two optional objects are equal when both are missing, or both are there and equal. */
  predicate SameOption<T>(a: Option<T>, b: Option<T>, eq: (T, T) -> bool) {
    (a.None? && b.None?) || (a.Some? && b.Some? && eq(a.value, b.value))
  }

  /** Certificates are compared by their references, which may be missing. */
  function CertificateEq<C>(eq: (C, C) -> bool): (Option<C>, Option<C>) -> bool {
    (x, y) => SameOption(x, y, eq)
  }

  /** The fields of sec_protocol_metadata_content that take part in comparisons. */
  datatype Metadata<C, X> = Metadata(
    peerCertificateChain: Option<seq<Option<C>>>, peerPublicKey: DispatchData?, signatureAlgorithms: Option<X>,
    ocspResponse: Option<seq<DispatchData?>>, distinguishedNames: Option<seq<DispatchData?>>,
    certificateTypes: DispatchData?)

  ghost predicate SamePeers<C, X>(f: Foreign<C, X>, a: Metadata<C, X>, b: Metadata<C, X>) {
    && Pointwise(Items(a.peerCertificateChain), Items(b.peerCertificateChain), CertificateEq(f.cfEqual))
    && SameData(a.peerPublicKey, b.peerPublicKey)
    && SameOption(a.signatureAlgorithms, b.signatureAlgorithms, f.xpcEqual)
    && Pointwise(Items(a.ocspResponse), Items(b.ocspResponse), SameData)
    && Pointwise(Items(a.distinguishedNames), Items(b.distinguishedNames), SameData)
  }

  ghost predicate SameChallenge<C, X>(f: Foreign<C, X>, a: Metadata<C, X>, b: Metadata<C, X>) {
    && SameOption(a.signatureAlgorithms, b.signatureAlgorithms, f.xpcEqual)
    && Pointwise(Items(a.distinguishedNames), Items(b.distinguishedNames), SameData)
    && SameData(a.certificateTypes, b.certificateTypes)
  }

  /** sec_protocol_metadata_peers_are_equal on accessible contents; a missing object is never equal. */
  method PeersAreEqual<C, X>(f: Foreign<C, X>, a: Option<Metadata<C, X>>, b: Option<Metadata<C, X>>) returns (r: bool)
    ensures r == (a.Some? && b.Some? && SamePeers(f, a.value, b.value))
  {
    if a.None? || b.None? {
      return false;
    }
    var x, y := a.value, b.value;
    r := SecArraysAreEqual(x.peerCertificateChain, y.peerCertificateChain, CertificateEq(f.cfEqual));
    if !r {
      return;
    }
    r := DispatchDataAreEqual(x.peerPublicKey, y.peerPublicKey);
    if !r {
      return;
    }
    if !SameOption(x.signatureAlgorithms, y.signatureAlgorithms, f.xpcEqual) {
      return false;
    }
    r := SecArraysAreEqual(x.ocspResponse, y.ocspResponse, SameData);
    if !r {
      return;
    }
    r := SecArraysAreEqual(x.distinguishedNames, y.distinguishedNames, SameData);
  }

  method ChallengeParametersAreEqual<C, X>(f: Foreign<C, X>, a: Option<Metadata<C, X>>, b: Option<Metadata<C, X>>)
    returns (r: bool)
    ensures r == (a.Some? && b.Some? && SameChallenge(f, a.value, b.value))
  {
    if a.None? || b.None? {
      return false;
    }
    var x, y := a.value, b.value;
    if !SameOption(x.signatureAlgorithms, y.signatureAlgorithms, f.xpcEqual) {
      return false;
    }
    r := SecArraysAreEqual(x.distinguishedNames, y.distinguishedNames, SameData);
    if !r {
      return;
    }
    r := DispatchDataAreEqual(x.certificateTypes, y.certificateTypes);
  }

  /** Two certificates are both missing, or both there and equal. */
  predicate SameCertificate<C>(f: (C, C) -> bool, x: Option<C>, y: Option<C>) {
    match (x, y)
    case (None, None) => true
    case (Some(c), Some(d)) => f(c, d)
    case _ => false
  }

  /** Two lists of buffers agree position by position; a missing list is an empty one. */
  ghost predicate BuffersAgree(x: Option<seq<DispatchData?>>, y: Option<seq<DispatchData?>>) {
    match (x, y)
    case (Some(a), Some(b)) => |a| == |b| && forall i :: 0 <= i < |a| ==> BufferAgrees(a[i], b[i])
    case (Some(a), None) => a == []
    case (None, Some(b)) => b == []
    case (None, None) => true
  }

  predicate BufferAgrees(x: DispatchData?, y: DispatchData?) {
    (x == null && y == null) || (x != null && y != null && Flatten(x.regions) == Flatten(y.regions))
  }

  /** Peers are compared by chain, key, algorithms, OCSP responses and names, and by nothing else. */
  lemma PeersCompared<C, X>(f: Foreign<C, X>, a: Metadata<C, X>, b: Metadata<C, X>)
    ensures var x := if a.peerCertificateChain.Some? then a.peerCertificateChain.value else [];
            var y := if b.peerCertificateChain.Some? then b.peerCertificateChain.value else [];
            SamePeers(f, a, b) <==>
            && |x| == |y| && (forall i :: 0 <= i < |x| ==> SameCertificate(f.cfEqual, x[i], y[i]))
            && BufferAgrees(a.peerPublicKey, b.peerPublicKey)
            && (a.signatureAlgorithms.Some? <==> b.signatureAlgorithms.Some?)
            && (a.signatureAlgorithms.Some? && b.signatureAlgorithms.Some? ==>
                  f.xpcEqual(a.signatureAlgorithms.value, b.signatureAlgorithms.value))
            && BuffersAgree(a.ocspResponse, b.ocspResponse)
            && BuffersAgree(a.distinguishedNames, b.distinguishedNames)
  {
    BuffersCompared(a.ocspResponse, b.ocspResponse);
    BuffersCompared(a.distinguishedNames, b.distinguishedNames);
    CertificatesCompared(f, a.peerCertificateChain, b.peerCertificateChain);
    hide Pointwise, BuffersAgree, SameCertificate;
  }

  lemma CertificatesCompared<C, X>(f: Foreign<C, X>, x: Option<seq<Option<C>>>, y: Option<seq<Option<C>>>)
    ensures var a, b := if x.Some? then x.value else [], if y.Some? then y.value else [];
            Pointwise(Items(x), Items(y), CertificateEq(f.cfEqual)) <==>
            |a| == |b| && forall i :: 0 <= i < |a| ==> SameCertificate(f.cfEqual, a[i], b[i])
  {
    var a, b := Items(x), Items(y);
    forall i | 0 <= i < |a| && i < |b|
      ensures CertificateEq(f.cfEqual)(a[i], b[i]) <==> SameCertificate(f.cfEqual, a[i], b[i])
    {
    }
  }

  lemma BuffersCompared(x: Option<seq<DispatchData?>>, y: Option<seq<DispatchData?>>)
    ensures Pointwise(Items(x), Items(y), SameData) <==> BuffersAgree(x, y)
  {
    var a, b := Items(x), Items(y);
    forall i | 0 <= i < |a| && i < |b|
      ensures SameData(a[i], b[i]) <==> BufferAgrees(a[i], b[i])
    {
    }
  }

  /** Challenges are compared by algorithms, names and certificate types, and by nothing else. */
  lemma ChallengesCompared<C, X>(f: Foreign<C, X>, a: Metadata<C, X>, b: Metadata<C, X>)
    ensures SameChallenge(f, a, b) <==>
            && (a.signatureAlgorithms.Some? <==> b.signatureAlgorithms.Some?)
            && (a.signatureAlgorithms.Some? && b.signatureAlgorithms.Some? ==>
                  f.xpcEqual(a.signatureAlgorithms.value, b.signatureAlgorithms.value))
            && BuffersAgree(a.distinguishedNames, b.distinguishedNames)
            && BufferAgrees(a.certificateTypes, b.certificateTypes)
  {
    BuffersCompared(a.distinguishedNames, b.distinguishedNames);
    hide Pointwise, BuffersAgree;
  }

  /** Both comparisons are equivalence relations when the foreign equalities are. */
  lemma MetadataEquivalence<C(!new), X(!new)>(
    f: Foreign<C, X>, a: Metadata<C, X>, b: Metadata<C, X>, c: Metadata<C, X>)
    requires Equivalence(f.cfEqual) && Equivalence(f.xpcEqual)
    ensures SamePeers(f, a, a) && SameChallenge(f, a, a)
    ensures SamePeers(f, a, b) ==> SamePeers(f, b, a)
    ensures SameChallenge(f, a, b) ==> SameChallenge(f, b, a)
    ensures SamePeers(f, a, b) && SamePeers(f, b, c) ==> SamePeers(f, a, c)
    ensures SameChallenge(f, a, b) && SameChallenge(f, b, c) ==> SameChallenge(f, a, c)
  {
    PointwiseEquivalence(Items(a.peerCertificateChain), Items(b.peerCertificateChain), Items(c.peerCertificateChain),
                         CertificateEq(f.cfEqual));
    DataListEquivalence(Items(a.ocspResponse), Items(b.ocspResponse), Items(c.ocspResponse));
    DataListEquivalence(Items(a.distinguishedNames), Items(b.distinguishedNames), Items(c.distinguishedNames));
  }

  lemma PointwiseEquivalence<T(!new)>(a: seq<T>, b: seq<T>, c: seq<T>, eq: (T, T) -> bool)
    requires Equivalence(eq)
    ensures Pointwise(a, a, eq)
    ensures Pointwise(a, b, eq) ==> Pointwise(b, a, eq)
    ensures Pointwise(a, b, eq) && Pointwise(b, c, eq) ==> Pointwise(a, c, eq)
  {
    if Pointwise(a, b, eq) && Pointwise(b, c, eq) {
      forall i | 0 <= i < |a|
        ensures eq(a[i], c[i])
      {
        assert eq(a[i], b[i]) && eq(b[i], c[i]);
      }
    }
  }

  lemma DataListEquivalence(a: seq<DispatchData?>, b: seq<DispatchData?>, c: seq<DispatchData?>)
    ensures Pointwise(a, a, SameData)
    ensures Pointwise(a, b, SameData) ==> Pointwise(b, a, SameData)
    ensures Pointwise(a, b, SameData) && Pointwise(b, c, SameData) ==> Pointwise(a, c, SameData)
  {
    if Pointwise(a, b, SameData) && Pointwise(b, c, SameData) {
      forall i | 0 <= i < |a|
        ensures SameData(a[i], c[i])
      {
        assert SameData(a[i], b[i]) && SameData(b[i], c[i]);
      }
    }
  }
}

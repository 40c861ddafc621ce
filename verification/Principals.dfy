/** The kinds of principal and which one subsumes which (`BasePrincipal.cpp`, `nsPrincipal.cpp` and the
    headers of the null and the system principal). */
module Principals {
  import opened Wrappers
  import opened OriginAttributes

  /** A URI object, known only through the comparison below. */
  type Uri = nat

  /** A principal as an object: `id` tells objects with equal fields apart. */
  datatype Principal =
    | NullPrincipal(id: nat, uri: Uri, attrs: Attributes)
    | SystemPrincipal
    | CodebasePrincipal(id: nat, codebase: Option<Uri>, domain: Option<Uri>, attrs: Attributes)
    | ExpandedPrincipal(id: nat, principals: seq<Principal>, attrs: Attributes)
  {
    function GetUri(): Option<Uri> {
      match this
      case NullPrincipal(_, u, _) => Some(u)
      case CodebasePrincipal(_, u, _, _) => u
      case _ => None
    }

    /** A null principal answers with its own URI. */
    function GetDomain(): Option<Uri> {
      match this
      case NullPrincipal(_, u, _) => Some(u)
      case CodebasePrincipal(_, _, d, _) => d
      case _ => None
    }

    function OriginAttributesRef(): Attributes {
      if SystemPrincipal? then DEFAULTS else attrs
    }
  }

  datatype Consideration = ConsiderDocumentDomain | DontConsiderDocumentDomain

  /** The security comparison of URIs; null equals nothing. */
  datatype Comparison = Comparison(same: (Uri, Uri) -> bool)
  {
    ghost predicate IsEquivalence() {
      && (forall u :: same(u, u))
      && (forall u, v :: same(u, v) ==> same(v, u))
      && (forall u, v, w :: same(u, v) && same(v, w) ==> same(u, w))
    }

    predicate SecurityCompare(u: Option<Uri>, v: Option<Uri>) {
      u.Some? && v.Some? && same(u.value, v.value)
    }
  }

  predicate Subsumes(c: Comparison, k: Consideration, p: Principal, other: Principal)
    decreases p, other, 1
  {
    if p.CodebasePrincipal? && p.attrs != other.OriginAttributesRef() then false
    else SubsumesInternal(c, k, p, other)
  }

  predicate SubsumesInternal(c: Comparison, k: Consideration, p: Principal, other: Principal)
    decreases p, other, 0
  {
    match p
    case NullPrincipal(_, _, _) => other == p
    case SystemPrincipal => true
    case CodebasePrincipal(_, codebase, domain, _) =>
      if other == p then true
      else if k == ConsiderDocumentDomain && (domain.Some? || other.GetDomain().Some?) then
        c.SecurityCompare(domain, other.GetDomain())
      else c.SecurityCompare(codebase, other.GetUri())
    case ExpandedPrincipal(_, principals, _) =>
      if other.ExpandedPrincipal? then
        forall i :: 0 <= i < |other.principals| ==> SubsumesInternal(c, k, p, other.principals[i])
      else
        exists i :: 0 <= i < |principals| && Subsumes(c, k, principals[i], other)
  }

  predicate Equals(c: Comparison, k: Consideration, p: Principal, other: Principal) {
    Subsumes(c, k, p, other) && Subsumes(c, k, other, p)
  }

  /** What an expanded principal comes down to. */
  ghost function Leaves(p: Principal): (r: set<Principal>)
    ensures forall l <- r :: !l.ExpandedPrincipal?
  {
    if p.ExpandedPrincipal? then
      set i, l | 0 <= i < |p.principals| && l in Leaves(p.principals[i]) :: l
    else {p}
  }

  /** Every leaf of the other principal is subsumed by some leaf of this one. */
  ghost predicate Covers(c: Comparison, k: Consideration, p: Principal, other: Principal) {
    forall l <- Leaves(other) :: SomeLeafSubsumes(c, k, p, l)
  }

  ghost predicate SomeLeafSubsumes(c: Comparison, k: Consideration, p: Principal, l: Principal) {
    exists m <- Leaves(p) :: Subsumes(c, k, m, l)
  }

  /** Subsumption without recursion: leaf by leaf; but an expanded principal, even an empty one, is subsumed
      only by the system principal and by expanded ones. */
  lemma {:induction false} SubsumesIffCovers(c: Comparison, k: Consideration, p: Principal, other: Principal)
    ensures Subsumes(c, k, p, other) <==>
            Covers(c, k, p, other) && (other.ExpandedPrincipal? ==> p.ExpandedPrincipal? || p.SystemPrincipal?)
    decreases p, other
  {
    if !p.ExpandedPrincipal? {
      LeafCovers(c, k, p, other);
    } else if other.ExpandedPrincipal? {
      forall i | 0 <= i < |other.principals|
        ensures Subsumes(c, k, p, other.principals[i]) <==> Covers(c, k, p, other.principals[i])
      {
        SubsumesIffCovers(c, k, p, other.principals[i]);
      }
    } else {
      forall i | 0 <= i < |p.principals|
        ensures Subsumes(c, k, p.principals[i], other) <==> SomeLeafSubsumes(c, k, p.principals[i], other)
      {
        SubsumesIffCovers(c, k, p.principals[i], other);
        assert Leaves(other) == {other};
      }
      assert Covers(c, k, p, other) <==> SomeLeafSubsumes(c, k, p, other) by {
        assert Leaves(other) == {other};
      }
      forall m | m in Leaves(p) && Subsumes(c, k, m, other)
        ensures exists i :: 0 <= i < |p.principals| && Subsumes(c, k, p.principals[i], other)
      {
        var i :| 0 <= i < |p.principals| && m in Leaves(p.principals[i]);
        assert SomeLeafSubsumes(c, k, p.principals[i], other);
      }
    }
  }

  lemma {:induction false} LeafCovers(c: Comparison, k: Consideration, p: Principal, other: Principal)
    requires !p.ExpandedPrincipal?
    ensures Subsumes(c, k, p, other) <==> Covers(c, k, p, other) && (other.ExpandedPrincipal? ==> p.SystemPrincipal?)
  {
    assert Leaves(p) == {p};
    if other.ExpandedPrincipal? {
      assert p.SystemPrincipal? ==> forall l <- Leaves(other) :: Subsumes(c, k, p, l);
    } else {
      assert Leaves(other) == {other};
    }
  }

  lemma {:induction false} LeafTransitive(c: Comparison, k: Consideration, p: Principal, q: Principal, r: Principal)
    requires c.IsEquivalence()
    requires !p.ExpandedPrincipal? && !q.ExpandedPrincipal? && Subsumes(c, k, p, q) && Subsumes(c, k, q, r)
    ensures Subsumes(c, k, p, r)
  {
  }

  lemma {:induction false} SubsumesReflexive(c: Comparison, k: Consideration, p: Principal)
    ensures Subsumes(c, k, p, p)
  {
    SubsumesIffCovers(c, k, p, p);
    forall l <- Leaves(p) ensures SomeLeafSubsumes(c, k, p, l) {
      assert Subsumes(c, k, l, l);
    }
  }

  lemma {:induction false} SubsumesTransitive(c: Comparison, k: Consideration, p: Principal, q: Principal, r: Principal)
    requires c.IsEquivalence() && Subsumes(c, k, p, q) && Subsumes(c, k, q, r)
    ensures Subsumes(c, k, p, r)
  {
    SubsumesIffCovers(c, k, p, q);
    SubsumesIffCovers(c, k, q, r);
    SubsumesIffCovers(c, k, p, r);
    forall l <- Leaves(r) ensures SomeLeafSubsumes(c, k, p, l) {
      var m :| m in Leaves(q) && Subsumes(c, k, m, l);
      var n :| n in Leaves(p) && Subsumes(c, k, n, m);
      LeafTransitive(c, k, n, m, l);
    }
  }

  /** `Equals` and `EqualsConsideringDomain` are equivalences. */
  lemma {:induction false} EqualsIsEquivalence(c: Comparison, k: Consideration, p: Principal, q: Principal,
                                               r: Principal)
    requires c.IsEquivalence()
    ensures Equals(c, k, p, p)
    ensures Equals(c, k, p, q) ==> Equals(c, k, q, p)
    ensures Equals(c, k, p, q) && Equals(c, k, q, r) ==> Equals(c, k, p, r)
  {
    SubsumesReflexive(c, k, p);
    if Equals(c, k, p, q) && Equals(c, k, q, r) {
      SubsumesTransitive(c, k, p, q, r);
      SubsumesTransitive(c, k, r, q, p);
    }
  }

  /** Setting document.domain counts only when both sides do it: considering domains, whatever subsumes a
      codebase principal holds that very principal, the system principal, or a codebase principal of the same
      attributes that has a domain exactly if the other one has. */
  lemma {:induction false} DomainNeedsDomain(c: Comparison, p: Principal, q: Principal) returns (m: Principal)
    requires q.CodebasePrincipal? && Subsumes(c, ConsiderDocumentDomain, p, q)
    ensures m in Leaves(p)
    ensures || m == q || m.SystemPrincipal?
            || (m.CodebasePrincipal? && m.attrs == q.attrs && (m.domain.Some? <==> q.domain.Some?))
  {
    SubsumesIffCovers(c, ConsiderDocumentDomain, p, q);
    assert q in Leaves(q) && SomeLeafSubsumes(c, ConsiderDocumentDomain, p, q);
    m :| m in Leaves(p) && Subsumes(c, ConsiderDocumentDomain, m, q);
    LeafDomain(c, m, q);
  }

  lemma {:induction false} LeafDomain(c: Comparison, m: Principal, q: Principal)
    requires q.CodebasePrincipal? && !m.ExpandedPrincipal? && Subsumes(c, ConsiderDocumentDomain, m, q)
    ensures || m == q || m.SystemPrincipal?
            || (m.CodebasePrincipal? && m.attrs == q.attrs && (m.domain.Some? <==> q.domain.Some?))
  {
    assert SubsumesInternal(c, ConsiderDocumentDomain, m, q);
  }

  // What the equalities identify

  /** When one principal that is not expanded may touch another, case by case. */
  ghost predicate Admits(c: Comparison, k: Consideration, m: Principal, l: Principal) {
    || m == l
    || m.SystemPrincipal?
    || (m.CodebasePrincipal? && l.CodebasePrincipal? && m.attrs == l.attrs && SameOrigin(c, k, m, l))
    || (m.CodebasePrincipal? && l.NullPrincipal? && m.attrs == l.attrs &&
        match k
        case ConsiderDocumentDomain => m.domain.Some? && c.same(m.domain.value, l.uri)
        case DontConsiderDocumentDomain => m.codebase.Some? && c.same(m.codebase.value, l.uri))
  }

  /** Two codebase principals whose URIs compare the same; where domains are considered and one of them has one,
      the domains compare the same instead. */
  ghost predicate SameOrigin(c: Comparison, k: Consideration, m: Principal, l: Principal)
    requires m.CodebasePrincipal? && l.CodebasePrincipal?
  {
    if k == ConsiderDocumentDomain && !(m.domain.None? && l.domain.None?)
    then m.domain.Some? && l.domain.Some? && c.same(m.domain.value, l.domain.value)
    else m.codebase.Some? && l.codebase.Some? && c.same(m.codebase.value, l.codebase.value)
  }

  ghost predicate AllAdmitted(c: Comparison, k: Consideration, p: Principal, q: Principal) {
    forall l <- Leaves(q) :: SomeLeafAdmits(c, k, p, l)
  }

  ghost predicate SomeLeafAdmits(c: Comparison, k: Consideration, p: Principal, l: Principal) {
    exists m <- Leaves(p) :: Admits(c, k, m, l)
  }

  lemma {:induction false} SubsumesIffAdmits(c: Comparison, k: Consideration, m: Principal, l: Principal)
    requires !m.ExpandedPrincipal? && !l.ExpandedPrincipal?
    ensures Subsumes(c, k, m, l) <==> Admits(c, k, m, l)
  {
    assert Subsumes(c, k, m, l) <==>
           (m.CodebasePrincipal? ==> m.attrs == l.OriginAttributesRef()) && SubsumesInternal(c, k, m, l);
  }

  /** Two codebase principals are equal exactly when they are one object, or agree in all origin attributes and in
      their URIs or, where domains are considered and one has one, in their domains. */
  lemma {:induction false} CodebaseEqualIff(c: Comparison, k: Consideration, p: Principal, q: Principal)
    requires c.IsEquivalence() && p.CodebasePrincipal? && q.CodebasePrincipal?
    ensures Equals(c, k, p, q) <==> p == q || (p.attrs == q.attrs && SameOrigin(c, k, p, q))
  {
    SubsumesIffAdmits(c, k, p, q);
    SubsumesIffAdmits(c, k, q, p);
    hide Subsumes;
  }

  /** A null principal equals itself only, and the system principal whatever comes down to it. */
  lemma {:induction false} NullAndSystemEqualIff(c: Comparison, k: Consideration, p: Principal, q: Principal)
    ensures p.NullPrincipal? ==> (Equals(c, k, p, q) <==> p == q)
    ensures p.SystemPrincipal? ==> (Equals(c, k, p, q) <==> SystemPrincipal in Leaves(q))
  {
    SubsumesReflexive(c, k, p);
    if p.NullPrincipal? {
      assert Subsumes(c, k, p, q) == SubsumesInternal(c, k, p, q) == (q == p);
    }
    if p.SystemPrincipal? {
      SubsumesIffCovers(c, k, q, p);
      assert Leaves(p) == {p};
      assert Subsumes(c, k, p, q);
      forall m <- Leaves(q) ensures Subsumes(c, k, m, p) <==> m == p {
        SubsumesIffAdmits(c, k, m, p);
      }
    }
  }

  /** In general two principals are equal exactly when each part of either is admitted by a part of the other; an
      expanded one equals a plain one only if that is the system principal. */
  lemma {:induction false} EqualIffPartsAdmit(c: Comparison, k: Consideration, p: Principal, q: Principal)
    ensures Equals(c, k, p, q) <==>
            && AllAdmitted(c, k, p, q) && AllAdmitted(c, k, q, p)
            && (q.ExpandedPrincipal? ==> p.ExpandedPrincipal? || p.SystemPrincipal?)
            && (p.ExpandedPrincipal? ==> q.ExpandedPrincipal? || q.SystemPrincipal?)
  {
    SubsumesIffCovers(c, k, p, q);
    SubsumesIffCovers(c, k, q, p);
    CoversIffAdmits(c, k, p, q);
    CoversIffAdmits(c, k, q, p);
    hide Covers;
    hide Admits;
  }

  lemma {:induction false} CoversIffAdmits(c: Comparison, k: Consideration, p: Principal, q: Principal)
    ensures Covers(c, k, p, q) <==> AllAdmitted(c, k, p, q)
  {
    forall l <- Leaves(q) ensures SomeLeafSubsumes(c, k, p, l) <==> SomeLeafAdmits(c, k, p, l) {
      SomeLeafIs(c, k, p, l);
    }
    hide SomeLeafSubsumes;
    hide SomeLeafAdmits;
  }

  lemma {:induction false} SomeLeafIs(c: Comparison, k: Consideration, p: Principal, l: Principal)
    requires !l.ExpandedPrincipal?
    ensures SomeLeafSubsumes(c, k, p, l) <==> SomeLeafAdmits(c, k, p, l)
  {
    hide Subsumes;
    hide Admits;
    forall m <- Leaves(p) ensures Subsumes(c, k, m, l) <==> Admits(c, k, m, l) {
      SubsumesIffAdmits(c, k, m, l);
    }
    hide Leaves;
  }
}

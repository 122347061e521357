/** The version order (backend/utils/semver.js:1-21). */
module Semver {
  import opened Common
  import opened Strings

  function OrZero(n: Option<int>): int { if n.Some? then n.value else 0 }

  function ParseAll(parts: seq<string>): (r: seq<int>)
    ensures |r| == |parts|
  {
    if parts == [] then [] else [OrZero(ParseInt(parts[0]))] + ParseAll(parts[1..])
  }

  /** The numeric components; an empty version is "0", a component that is no number is 0. */
  function Components(version: string): seq<int> {
    ParseAll(Split(if version == "" then "0" else version, '.'))
  }

  lemma {:induction false} ParsedOneByOne(parts: seq<string>, i: nat)
    requires i < |parts|
    ensures ParseAll(parts)[i] == match ParseInt(parts[i]) case Some(n) => n case None => 0
  {
    if i > 0 {
      ParsedOneByOne(parts[1..], i - 1);
    }
  }

  /** The components are the integers that the parts between the dots begin with, 0 where there is none. */
  lemma ComponentsMean(version: string, parts: seq<string>, i: nat)
    requires i < |parts| && Join(parts, '.') == version != "" && forall k :: 0 <= k < |parts| ==> '.' !in parts[k]
    ensures |Components(version)| == |parts|
    ensures Components(version)[i] == match ParseInt(parts[i]) case Some(n) => n case None => 0
  {
    SplitOfJoin(parts, '.');
    ParsedOneByOne(parts, i);
  }

  lemma EmptyVersionIsZero()
    ensures Components("") == [0]
  {
    var parts := ["0"];
    assert Join(parts, '.') == "0";
    SplitOfJoin(parts, '.');
    assert BeginsWith("0", "", "", "0", "");
    ParseIntOf("0", "", "", "0", "");
    assert NumberOf("0") == 0;
  }

  /** Lists are padded with zeros. */
  function At(p: seq<int>, i: nat): (n: int)
    ensures i < |p| ==> n == p[i]
    ensures i >= |p| ==> n == 0
  {
    if i < |p| then p[i] else 0
  }

  function Longer(p: seq<int>, q: seq<int>): nat { if |p| >= |q| then |p| else |q| }

  /** The first difference from position `i` on. */
  function CompareFrom(p: seq<int>, q: seq<int>, i: nat): int
    decreases Longer(p, q) - i
  {
    if i >= Longer(p, q) then 0
    else if At(p, i) != At(q, i) then At(p, i) - At(q, i)
    else CompareFrom(p, q, i + 1)
  }

  function Compare(a: string, b: string): int {
    CompareFrom(Components(a), Components(b), 0)
  }

  method CompareVersions(a: string, b: string) returns (r: int)
    ensures r == Compare(a, b)
  {
    var pa, pb := Components(a), Components(b);
    var len := Longer(pa, pb);
    for i := 0 to len
      invariant CompareFrom(pa, pb, 0) == CompareFrom(pa, pb, i)
    {
      var na, nb := At(pa, i), At(pb, i);
      if na != nb {
        return na - nb;
      }
    }
    return 0;
  }

  /** `p` and `q` agree before position `k`. */
  ghost predicate AgreeTo(p: seq<int>, q: seq<int>, k: nat) {
    forall i :: 0 <= i < k ==> At(p, i) == At(q, i)
  }

  /** What a comparison means: 0 when the zero-padded lists agree everywhere, otherwise the difference at
      the first place where they do not. */
  lemma {:induction false} CompareMeans(p: seq<int>, q: seq<int>, i: nat)
    requires AgreeTo(p, q, i)
    ensures CompareFrom(p, q, i) == 0 <==> forall k: nat :: At(p, k) == At(q, k)
    ensures CompareFrom(p, q, i) != 0 ==>
              exists k: nat :: AgreeTo(p, q, k) && At(p, k) != At(q, k) && CompareFrom(p, q, i) == At(p, k) - At(q, k)
    decreases Longer(p, q) - i
  {
    if i < Longer(p, q) && At(p, i) == At(q, i) {
      CompareMeans(p, q, i + 1);
    }
  }

  lemma {:induction false} Antisymmetric(p: seq<int>, q: seq<int>, i: nat)
    ensures CompareFrom(q, p, i) == -CompareFrom(p, q, i)
    decreases Longer(p, q) - i
  {
    if i < Longer(p, q) {
      Antisymmetric(p, q, i + 1);
    }
  }

  lemma TransitiveOn(p: seq<int>, q: seq<int>, r: seq<int>)
    requires CompareFrom(p, q, 0) >= 0 && CompareFrom(q, r, 0) >= 0
    ensures CompareFrom(p, r, 0) >= 0
  {
    CompareMeans(p, q, 0);
    CompareMeans(q, r, 0);
    CompareMeans(p, r, 0);
    if CompareFrom(p, r, 0) != 0 {
      var k: nat :| AgreeTo(p, r, k) && At(p, k) != At(r, k) && CompareFrom(p, r, 0) == At(p, k) - At(r, k);
      FirstDifferenceWins(p, q, r, k);
    }
  }

  lemma {:induction false} FirstDecidesFrom(p: seq<int>, q: seq<int>, k: nat, i: nat)
    requires AgreeTo(p, q, k) && i <= k && At(p, k) != At(q, k)
    ensures CompareFrom(p, q, i) == At(p, k) - At(q, k)
    decreases k - i
  {
    if i < k {
      FirstDecidesFrom(p, q, k, i + 1);
    }
  }

  lemma FirstDecides(p: seq<int>, q: seq<int>, k: nat)
    requires AgreeTo(p, q, k) && At(p, k) != At(q, k)
    ensures CompareFrom(p, q, 0) == At(p, k) - At(q, k)
  {
    FirstDecidesFrom(p, q, k, 0);
  }

  lemma FirstDifferenceWins(p: seq<int>, q: seq<int>, r: seq<int>, k: nat)
    requires CompareFrom(p, q, 0) >= 0 && CompareFrom(q, r, 0) >= 0
    requires AgreeTo(p, r, k) && At(p, k) != At(r, k)
    ensures At(p, k) > At(r, k)
  {
    CompareMeans(p, q, 0);
    CompareMeans(q, r, 0);
    if CompareFrom(p, q, 0) != 0 {
      var j: nat :| AgreeTo(p, q, j) && At(p, j) != At(q, j) && CompareFrom(p, q, 0) == At(p, j) - At(q, j);
      if j < k {
        assert At(q, j) < At(p, j) == At(r, j);
        assert forall i :: 0 <= i < j ==> At(q, i) == At(p, i) == At(r, i);
        FirstDecides(q, r, j);
      } else {
        Below(p, q, r, k, j);
      }
    }
  }

  /** `p` and `q` agree before `j >= k`, so `q` meets `r` first at `k` or not at all before it. */
  lemma Below(p: seq<int>, q: seq<int>, r: seq<int>, k: nat, j: nat)
    requires AgreeTo(p, q, j) && k <= j && At(p, j) > At(q, j)
    requires AgreeTo(p, r, k) && At(p, k) != At(r, k) && CompareFrom(q, r, 0) >= 0
    ensures At(p, k) > At(r, k)
  {
    assert forall i :: 0 <= i < k ==> At(q, i) == At(p, i) == At(r, i);
    if At(q, k) != At(r, k) {
      FirstDecides(q, r, k);
    }
  }

  /** The order on versions is a total preorder: reflexive, antisymmetric up to zero padding, transitive. */
  lemma VersionsAreOrdered(a: string, b: string, c: string)
    ensures Compare(a, a) == 0
    ensures Compare(b, a) == -Compare(a, b)
    ensures Compare(a, b) >= 0 && Compare(b, c) >= 0 ==> Compare(a, c) >= 0
    ensures Compare(a, b) > 0 && Compare(b, c) >= 0 ==> Compare(a, c) > 0
    ensures Compare(a, b) >= 0 && Compare(b, c) > 0 ==> Compare(a, c) > 0
  {
    CompareMeans(Components(a), Components(a), 0);
    Antisymmetric(Components(a), Components(b), 0);
    var p, q, r := Components(a), Components(b), Components(c);
    if Compare(a, b) >= 0 && Compare(b, c) >= 0 {
      TransitiveOn(p, q, r);
      Antisymmetric(p, r, 0);
      Antisymmetric(q, r, 0);
      if Compare(c, a) >= 0 {
        TransitiveOn(q, r, p);
        TransitiveOn(r, p, q);
      }
    }
  }

  predicate IsNewer(candidate: string, current: string) { Compare(candidate, current) > 0 }
}

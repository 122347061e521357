/** The list of ports to scan (backend/services/ipAddresses.service.js:57-92). */
module Ports {
  import opened Common
  import opened Strings

  const LAST_PORT := 65535

  function Pow2(n: nat): (r: nat)
    ensures (n == 0 ==> r == 1) && (n == 1 ==> r == 2)
  {
    if n == 0 then 1 else 2 * Pow2(n - 1)
  }

  /** parseInt yields a double: from this magnitude on it is infinite, and so no integer. */
  predicate Finite(n: int)
    ensures Finite(n) <==> if n < 0 then -n < Pow2(1024) - Pow2(970) else n < Pow2(1024) - Pow2(970)
  {
    -(Pow2(1024) - Pow2(970)) < n < Pow2(1024) - Pow2(970)
  }

  function Integer(s: string): (r: Option<int>)
    ensures r.Some? ==> r == ParseInt(s) && Finite(r.value)
    ensures r.None? ==> ParseInt(s).None? || !Finite(ParseInt(s).value)
  {
    var n := ParseInt(s);
    if n.Some? && Finite(n.value) then n else None
  }

  function Clamp(n: int): (r: int)
    ensures 1 <= r <= LAST_PORT
    ensures 1 <= n <= 65535 ==> r == n
    ensures (n < 1 ==> r == 1) && (n > 65535 ==> r == 65535)
  {
    if n < 1 then 1 else if n > LAST_PORT then LAST_PORT else n
  }

  /** One trimmed segment names the port: alone, or as one end of a range or between its ends. */
  predicate Names(segment: string, port: int) {
    if '-' in segment then
      var parts := Split(segment, '-');
      |parts| == 2 && Integer(Trim(parts[0])).Some? && Integer(Trim(parts[1])).Some? &&
      (var a, b := Clamp(Integer(Trim(parts[0])).value), Clamp(Integer(Trim(parts[1])).value);
       Min(a, b) <= port <= Max(a, b))
    else Integer(segment) == Some(port) && 1 <= port <= LAST_PORT
  }

  predicate NamedBy(segments: seq<string>, port: int) {
    exists i :: 0 <= i < |segments| && Trim(segments[i]) != "" && Names(Trim(segments[i]), port)
  }

  /** The ports the text asks for. */
  ghost predicate Asked(text: Option<string>, port: int) {
    text.Some? && NamedBy(Split(text.value, ','), port)
  }

  ghost predicate IsLeast(s: set<int>, m: int) {
    m in s && forall y :: y in s ==> m <= y
  }

  lemma {:induction false} HasLeast(s: set<int>)
    requires s != {}
    ensures exists m :: IsLeast(s, m)
  {
    assert (forall x :: x !in s) ==> s == {};
    if x :| x in s {
      var rest := s - {x};
      if rest == {} {
        assert s == {x};
        assert IsLeast(s, x);
      } else {
        HasLeast(rest);
        var m :| IsLeast(rest, m);
        assert forall y :: y in s ==> y == x || y in rest;
        assert IsLeast(s, Min(x, m));
      }
    }
  }

  method SortAscending(s: set<int>) returns (r: seq<int>)
    ensures Ascending(r)
    ensures forall p :: p in r <==> p in s
  {
    var rest := s;
    r := [];
    while rest != {}
      invariant rest <= s && Ascending(r)
      invariant forall p :: p in r <==> p in s && p !in rest
      invariant forall p, q :: p in r && q in rest ==> p < q
      decreases |rest|
    {
      HasLeast(rest);
      var m :| m in rest && forall y :: y in rest ==> m <= y;
      assert forall i :: 0 <= i < |r| ==> r[i] in r;
      r := r + [m];
      rest := rest - {m};
    }
  }

  method FullRange() returns (full: seq<int>)
    ensures Ascending(full) && full != []
    ensures forall p :: p in full <==> 1 <= p <= LAST_PORT
  {
    full := [];
    for p := 1 to LAST_PORT + 1
      invariant |full| == p - 1 && forall k :: 0 <= k < |full| ==> full[k] == k + 1
    {
      full := full + [p];
    }
    forall p | 1 <= p <= LAST_PORT
      ensures p in full
    {
      assert full[p - 1] == p;
    }
  }

  method AddSegment(out: set<int>, seg: string) returns (r: set<int>)
    ensures forall p :: p in r <==> p in out || Names(seg, p)
  {
    hide Finite, Pow2, ParseInt, Split, Trim, Clamp;
    r := out;
    if '-' in seg {
      var parts := Split(seg, '-');
      if |parts| == 2 && Integer(Trim(parts[0])).Some? && Integer(Trim(parts[1])).Some? {
        var a, b := Clamp(Integer(Trim(parts[0])).value), Clamp(Integer(Trim(parts[1])).value);
        var lo, hi := Min(a, b), Max(a, b);
        for p := lo to hi + 1
          invariant forall q :: q in r <==> q in out || lo <= q < p
        {
          r := r + {p};
        }
      }
    } else {
      var n := Integer(seg);
      if n.Some? && 1 <= n.value <= LAST_PORT {
        r := r + {n.value};
      }
    }
  }

  /** Never empty, strictly ascending, and exactly the ports asked for, or every port if none is. */
  method ParsePorts(text: Option<string>) returns (ports: seq<int>)
    ensures ports != [] && Ascending(ports)
    ensures forall p :: p in ports ==> 1 <= p <= LAST_PORT
    ensures forall p :: p in ports <==> if exists q :: Asked(text, q) then Asked(text, p) else 1 <= p <= LAST_PORT
  {
    if text.None? || Trim(text.value) == "" {
      if text.Some? {
        BlankAsksNothing(text.value);
      }
      ports := FullRange();
      return;
    }
    var out: set<int> := {};
    var segments := Split(text.value, ',');
    for i := 0 to |segments|
      invariant forall p :: p in out <==> NamedBy(segments[..i], p)
    {
      var seg := Trim(segments[i]);
      var was := out;
      if seg != "" {
        out := AddSegment(out, seg);
      }
      forall p
        ensures p in out <==> NamedBy(segments[..i + 1], p)
      {
        NamedByGrows(segments, i, p);
      }
    }
    assert segments[..|segments|] == segments;
    assert forall p :: p in out <==> Asked(text, p);
    ports := SortAscending(out);
    forall p | p in ports
      ensures 1 <= p <= LAST_PORT
    {
      AskedInRange(text, p);
    }
    if ports != [] {
      assert Asked(text, ports[0]);
      return;
    }
    assert forall p :: p in out ==> p in ports;
    assert forall p :: !Asked(text, p);
    ports := FullRange();
  }

  lemma NamedByGrows(segments: seq<string>, i: nat, p: int)
    requires i < |segments|
    ensures NamedBy(segments[..i + 1], p) <==>
            NamedBy(segments[..i], p) || (Trim(segments[i]) != "" && Names(Trim(segments[i]), p))
  {
    hide Names, Trim;
    var more := segments[..i + 1];
    assert more[..i] == segments[..i] && more[i] == segments[i];
    if NamedBy(segments[..i], p) {
      var k :| 0 <= k < i && Trim(segments[..i][k]) != "" && Names(Trim(segments[..i][k]), p);
      assert more[k] == segments[..i][k];
    }
  }

  lemma AskedInRange(text: Option<string>, p: int)
    requires Asked(text, p)
    ensures 1 <= p <= LAST_PORT
  {
    hide Trim, Integer, Split;
  }

  /** White space has no segment but a blank one. */
  lemma BlankAsksNothing(s: string)
    requires Trim(s) == ""
    ensures forall p :: !Asked(Some(s), p)
  {
    TrimStartKeepsComma(s);
    TrimEndKeepsComma(TrimStart(s));
    SplitPrefix(s, [], ',');
    assert Split(s, ',') == [s];
  }

  lemma {:induction false} TrimStartKeepsComma(s: string)
    ensures ',' in s ==> ',' in TrimStart(s)
  {
    if s != [] && IsSpace(s[0]) {
      TrimStartKeepsComma(s[1..]);
    }
  }

  lemma {:induction false} TrimEndKeepsComma(s: string)
    ensures ',' in s ==> ',' in TrimEnd(s)
  {
    if s != [] && IsSpace(s[|s| - 1]) {
      TrimEndKeepsComma(s[..|s| - 1]);
    }
  }
}

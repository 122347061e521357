/**
  IPv4 addresses as 32-bit numbers (backend/utils/ip.js:4-27) and the list of free addresses of a site
  (backend/services/ipAddresses.service.js:31-38, 297-320).
 */
module Ipv4 {
  import opened Common
  import opened Strings

  const WORD := 0x1_0000_0000

  // -------------------------------------------- JavaScript's 32-bit operators

  function ToUint32(n: int): (r: int)
    ensures 0 <= r < WORD
  {
    n % WORD
  }

  function ToInt32(n: int): (r: int)
    ensures -0x8000_0000 <= r < 0x8000_0000
  {
    if n % WORD >= 0x8000_0000 then n % WORD - WORD else n % WORD
  }

  /** `n << 8`: the result is signed. */
  function ShiftLeft8(n: int): int { ToInt32(ToInt32(n) * 256) }

  /** `(n >>> k) & 255` for a shift by `unit`, the k-th power of two. */
  function Octet(n: int, unit: int): (r: int)
    requires unit > 0
    ensures 0 <= r < 256
  {
    (ToUint32(n) / unit) % 256
  }

  // --------------------------------------------------------------- conversion

  predicate IsOctet(s: string) {
    s != "" && AllDigits(s) && NumberOf(s) <= 255
  }

  predicate IsValidIPv4(ip: string) {
    var parts := Split(Trim(ip), '.');
    |parts| == 4 && IsOctet(parts[0]) && IsOctet(parts[1]) && IsOctet(parts[2]) && IsOctet(parts[3])
  }

  /** `Number(s)` for a piece that is a numeral up to white space around it. */
  function NumberOfPiece(s: string): int {
    if AllDigits(Trim(s)) then NumberOf(Trim(s)) else 0
  }

  function Reduce(pieces: seq<string>, acc: int): int {
    if pieces == [] then acc else Reduce(pieces[1..], ShiftLeft8(acc) + NumberOfPiece(pieces[0]))
  }

  /** None where the original throws. */
  function IpToNumeric(ip: string): Option<int> {
    if IsValidIPv4(ip) then Some(ToUint32(Reduce(Split(ip, '.'), 0))) else None
  }

  function Quad(a: int, b: int, c: int, d: int): string {
    Join([Decimal(a), Decimal(b), Decimal(c), Decimal(d)], '.')
  }

  function NumericToIp(n: int): string {
    Quad(Octet(n, 0x100_0000), Octet(n, 0x1_0000), Octet(n, 0x100), Octet(n, 1))
  }

  function Value(a: int, b: int, c: int, d: int): int {
    a * 0x100_0000 + b * 0x1_0000 + c * 0x100 + d
  }

  // -------------------------------------------------------------- wrap-around

  /** The signed shift wraps, but the sum stays right modulo 2^32. */
  lemma ShiftStaysCongruent(acc: int, octet: int)
    ensures ToUint32(ShiftLeft8(acc) + octet) == ToUint32(ToUint32(acc) * 256 + octet)
  {
    var u := acc % WORD;
    var s := ToInt32(acc);
    assert s == u || s == u - WORD;
    assert (s * 256) % WORD == (u * 256) % WORD by {
      if s == u - WORD {
        MulWord(u * 256, -256);
        assert s * 256 == u * 256 + WORD * (-256);
      }
    }
    var t := ToInt32(s * 256);
    var m := (s * 256) % WORD;
    assert t == m || t == m - WORD;
    AddMod(t, octet);
    AddMod(u * 256, octet);
    assert t % WORD == m by {
      if t == m - WORD {
        MulWord(m, -1);
      }
    }
  }

  lemma MulWord(n: int, k: int)
    ensures (n + WORD * k) % WORD == n % WORD
  {
  }

  lemma AddMod(n: int, k: int)
    ensures (n + k) % WORD == (n % WORD + k) % WORD
  {
    var q := n / WORD;
    assert n == WORD * q + n % WORD;
    MulWord(n % WORD + k, q);
    assert n + k == n % WORD + k + WORD * q;
  }

  lemma SmallStays(n: int)
    requires 0 <= n < WORD
    ensures ToUint32(n) == n
  {
  }

  lemma ReduceUnfolds(pieces: seq<string>, a: int, b: int, c: int, d: int)
    requires |pieces| == 4
    requires NumberOfPiece(pieces[0]) == a && NumberOfPiece(pieces[1]) == b
    requires NumberOfPiece(pieces[2]) == c && NumberOfPiece(pieces[3]) == d
    ensures Reduce(pieces, 0) ==
            ShiftLeft8(ShiftLeft8(ShiftLeft8(ShiftLeft8(0) + a) + b) + c) + d
  {
    hide ShiftLeft8, NumberOfPiece;
    var r1 := ShiftLeft8(0) + a;
    var r2 := ShiftLeft8(r1) + b;
    var r3 := ShiftLeft8(r2) + c;
    assert pieces[1..][1..] == pieces[2..] && pieces[2..][1..] == pieces[3..] && pieces[3..][1..] == [];
    assert Reduce(pieces[3..], r3) == Reduce([], ShiftLeft8(r3) + d);
    assert Reduce(pieces[2..], r2) == Reduce(pieces[3..], r3);
    assert Reduce(pieces[1..], r1) == Reduce(pieces[2..], r2);
  }

  lemma ShiftIn(acc: int, octet: int, value: int)
    requires ToUint32(acc) == value && 0 <= octet < 256 && 0 <= value * 256 + octet < WORD
    ensures ToUint32(ShiftLeft8(acc) + octet) == value * 256 + octet
  {
    ShiftStaysCongruent(acc, octet);
    SmallStays(value * 256 + octet);
  }

  /** Reducing four octets gives their positional value, although the first shift can turn negative. */
  lemma ReduceFour(pieces: seq<string>, a: int, b: int, c: int, d: int)
    requires |pieces| == 4 && 0 <= a < 256 && 0 <= b < 256 && 0 <= c < 256 && 0 <= d < 256
    requires NumberOfPiece(pieces[0]) == a && NumberOfPiece(pieces[1]) == b
    requires NumberOfPiece(pieces[2]) == c && NumberOfPiece(pieces[3]) == d
    ensures ToUint32(Reduce(pieces, 0)) == Value(a, b, c, d)
  {
    hide ShiftLeft8, NumberOfPiece, Reduce, ToUint32;
    ReduceUnfolds(pieces, a, b, c, d);
    SmallStays(0);
    ShiftIn(0, a, 0);
    var r1 := ShiftLeft8(0) + a;
    ShiftIn(r1, b, a);
    var r2 := ShiftLeft8(r1) + b;
    ShiftIn(r2, c, a * 256 + b);
    ShiftIn(ShiftLeft8(r2) + c, d, (a * 256 + b) * 256 + c);
  }

  // -------------------------------------------------------------- round trips

  lemma DecimalOctet(n: int)
    requires 0 <= n < 256
    ensures IsOctet(Decimal(n)) && NumberOfPiece(Decimal(n)) == n && Trimmed(Decimal(n)) && '.' !in Decimal(n)
  {
    NumberOfDecimal(n);
    NumeralIsTrimmed(Decimal(n));
    TrimIsTrimmed(Decimal(n));
  }

  lemma NumeralIsTrimmed(s: string)
    requires AllDigits(s)
    ensures Trimmed(s) && '.' !in s
  {
  }

  lemma QuadSplits(a: int, b: int, c: int, d: int)
    requires 0 <= a < 256 && 0 <= b < 256 && 0 <= c < 256 && 0 <= d < 256
    ensures Split(Quad(a, b, c, d), '.') == [Decimal(a), Decimal(b), Decimal(c), Decimal(d)]
    ensures Trim(Quad(a, b, c, d)) == Quad(a, b, c, d)
  {
    DecimalOctet(a);
    DecimalOctet(b);
    DecimalOctet(c);
    DecimalOctet(d);
    var parts := [Decimal(a), Decimal(b), Decimal(c), Decimal(d)];
    SplitOfJoin(parts, '.');
    QuadEnds(parts);
    TrimIsTrimmed(Quad(a, b, c, d));
  }

  lemma QuadEnds(parts: seq<string>)
    requires |parts| == 4 && forall i :: 0 <= i < 4 ==> parts[i] != "" && Trimmed(parts[i])
    ensures Trimmed(Join(parts, '.'))
  {
    var q := Join(parts, '.');
    assert parts[1..][1..] == parts[2..] && parts[2..][1..] == parts[3..];
    assert Join(parts[3..], '.') == parts[3];
    assert Join(parts[2..], '.') == parts[2] + "." + parts[3];
    assert Join(parts[1..], '.') == parts[1] + "." + (parts[2] + "." + parts[3]);
    assert q == parts[0] + "." + (parts[1] + "." + (parts[2] + "." + parts[3]));
    assert q[0] == parts[0][0];
    assert q[|q| - 1] == parts[3][|parts[3]| - 1];
  }

  /** A canonical quad has its positional value. */
  lemma QuadValue(a: int, b: int, c: int, d: int)
    requires 0 <= a < 256 && 0 <= b < 256 && 0 <= c < 256 && 0 <= d < 256
    ensures IpToNumeric(Quad(a, b, c, d)) == Some(Value(a, b, c, d))
  {
    hide IsOctet, NumberOfPiece, Decimal, Quad, Value, Reduce, Trim, Split;
    QuadSplits(a, b, c, d);
    DecimalOctet(a);
    DecimalOctet(b);
    DecimalOctet(c);
    DecimalOctet(d);
    ReduceFour(Split(Quad(a, b, c, d), '.'), a, b, c, d);
  }

  lemma AtLeastOneUnit(k: int, unit: int)
    requires unit > 0 && k > 0
    ensures k * unit >= unit
  {
  }

  lemma DivisionIs(n: int, unit: int, q: int, r: int)
    requires unit > 0 && n == q * unit + r && 0 <= r < unit
    ensures n / unit == q && n % unit == r
  {
    var p, s := n / unit, n % unit;
    assert n == p * unit + s && 0 <= s < unit;
    assert (p - q) * unit == r - s;
    if p > q {
      AtLeastOneUnit(p - q, unit);
    } else if p < q {
      assert (q - p) * unit == s - r;
      AtLeastOneUnit(q - p, unit);
    }
  }

  lemma OctetsOfValue(a: int, b: int, c: int, d: int)
    requires 0 <= a < 256 && 0 <= b < 256 && 0 <= c < 256 && 0 <= d < 256
    ensures 0 <= Value(a, b, c, d) < WORD
    ensures var n := Value(a, b, c, d);
      Octet(n, 0x100_0000) == a && Octet(n, 0x1_0000) == b && Octet(n, 0x100) == c && Octet(n, 1) == d
  {
    var n := Value(a, b, c, d);
    SmallStays(n);
    var ab := a * 256 + b;
    var abc := ab * 256 + c;
    DivisionIs(n, 0x100_0000, a, b * 0x1_0000 + c * 0x100 + d);
    DivisionIs(n, 0x1_0000, ab, c * 0x100 + d);
    DivisionIs(n, 0x100, abc, d);
    DivisionIs(ab, 256, a, b);
    DivisionIs(abc, 256, ab, c);
    DivisionIs(n, 256, abc, d);
  }

  lemma ValueOfOctets(n: int)
    requires 0 <= n < WORD
    ensures Value(Octet(n, 0x100_0000), Octet(n, 0x1_0000), Octet(n, 0x100), Octet(n, 1)) == n
  {
    var abc, d := n / 256, n % 256;
    var ab, c := abc / 256, abc % 256;
    var a, b := ab / 256, ab % 256;
    assert n == abc * 256 + d && abc == ab * 256 + c && ab == a * 256 + b;
    assert 0 <= a < 256;
    OctetsOfValue(a, b, c, d);
    assert n == Value(a, b, c, d);
  }

  /** Every 32-bit number survives the way to text and back. */
  lemma NumberRoundTrip(n: int)
    requires 0 <= n < WORD
    ensures IpToNumeric(NumericToIp(n)) == Some(n)
  {
    ValueOfOctets(n);
    QuadValue(Octet(n, 0x100_0000), Octet(n, 0x1_0000), Octet(n, 0x100), Octet(n, 1));
  }

  /** And every canonical quad survives the way to a number and back. */
  lemma QuadRoundTrip(a: int, b: int, c: int, d: int)
    requires 0 <= a < 256 && 0 <= b < 256 && 0 <= c < 256 && 0 <= d < 256
    ensures IpToNumeric(Quad(a, b, c, d)).Some? && NumericToIp(IpToNumeric(Quad(a, b, c, d)).value) == Quad(a, b, c, d)
  {
    QuadValue(a, b, c, d);
    OctetsOfValue(a, b, c, d);
  }

  predicate OctetsBelow(p: seq<int>, q: seq<int>)
    requires |p| == |q|
  {
    p != [] && (p[0] < q[0] || (p[0] == q[0] && OctetsBelow(p[1..], q[1..])))
  }

  /** Numeric order is octet order. */
  lemma OrderIsOctetOrder(p: seq<int>, q: seq<int>)
    requires |p| == 4 && |q| == 4 && forall i :: 0 <= i < 4 ==> 0 <= p[i] < 256 && 0 <= q[i] < 256
    ensures var x, y := IpToNumeric(Quad(p[0], p[1], p[2], p[3])), IpToNumeric(Quad(q[0], q[1], q[2], q[3]));
      x.Some? && y.Some? && (x.value < y.value <==> OctetsBelow(p, q))
  {
    QuadValue(p[0], p[1], p[2], p[3]);
    QuadValue(q[0], q[1], q[2], q[3]);
    assert p[1..][1..] == p[2..] && p[2..][1..] == p[3..] && p[3..][1..] == [];
    assert q[1..][1..] == q[2..] && q[2..][1..] == q[3..] && q[3..][1..] == [];
    assert OctetsBelow(p[3..], q[3..]) <==> p[3] < q[3];
    assert OctetsBelow(p[2..], q[2..]) <==> p[2] < q[2] || (p[2] == q[2] && p[3] < q[3]);
    assert OctetsBelow(p[1..], q[1..]) <==> p[1] < q[1] || (p[1] == q[1] && OctetsBelow(p[2..], q[2..]));
  }

  // ------------------------------------------------------------ free addresses

  datatype Site = Bolnica | DomZdravlja | UnknownSite

  function NetworkAddress(site: Site): Option<string> {
    match site
    case Bolnica => Some(Quad(10, 230, 62, 0))
    case DomZdravlja => Some(Quad(10, 160, 64, 0))
    case UnknownSite => None
  }

  function BroadcastAddress(site: Site): Option<string> {
    match site
    case Bolnica => Some(Quad(10, 230, 63, 255))
    case DomZdravlja => Some(Quad(10, 160, 71, 255))
    case UnknownSite => None
  }

  /** The usable range of a site. */
  lemma SiteRange(site: Site)
    requires !site.UnknownSite?
    ensures var network, broadcast :=
              IpToNumeric(NetworkAddress(site).value), IpToNumeric(BroadcastAddress(site).value);
      && network.Some? && broadcast.Some? && 0 <= network.value < broadcast.value < WORD
      && broadcast.value - network.value - 1 == if site.Bolnica? then 510 else 2046
  {
    if site.Bolnica? {
      QuadValue(10, 230, 62, 0);
      QuadValue(10, 230, 63, 255);
    } else {
      QuadValue(10, 160, 64, 0);
      QuadValue(10, 160, 71, 255);
    }
  }

  function FirstUsable(site: Site): int
    requires !site.UnknownSite?
  {
    SiteRange(site);
    IpToNumeric(NetworkAddress(site).value).value + 1
  }

  function LastUsable(site: Site): int
    requires !site.UnknownSite?
  {
    SiteRange(site);
    IpToNumeric(BroadcastAddress(site).value).value - 1
  }

  datatype Report = Report(total: int, occupiedCount: int, freeIps: seq<string>)

  /** The texts of exactly the unoccupied addresses of the range, in ascending order. */
  ghost predicate ListsFree(freeIps: seq<string>, numbers: seq<int>, first: int, last: int, occupied: set<int>) {
    && |freeIps| == |numbers| && Ascending(numbers)
    && (forall i :: 0 <= i < |numbers| ==> IpToNumeric(freeIps[i]) == Some(numbers[i]))
    && (forall n :: n in numbers <==> first <= n <= last && n !in occupied)
  }

  lemma AppendAscends(numbers: seq<int>, n: int)
    requires Ascending(numbers) && forall m :: m in numbers ==> m < n
    ensures Ascending(numbers + [n])
  {
    assert forall i :: 0 <= i < |numbers| ==> numbers[i] in numbers;
  }

  lemma ListStarts(first: int, occupied: set<int>)
    ensures ListsFree([], [], first, first - 1, occupied)
  {
  }

  lemma ListGrows(freeIps: seq<string>, numbers: seq<int>, first: int, n: int, occupied: set<int>)
    requires ListsFree(freeIps, numbers, first, n - 1, occupied) && first <= n && 0 <= n < WORD
    ensures if n in occupied then ListsFree(freeIps, numbers, first, n, occupied)
            else ListsFree(freeIps + [NumericToIp(n)], numbers + [n], first, n, occupied)
  {
    hide IpToNumeric, NumericToIp, Ascending;
    NumberRoundTrip(n);
    AppendAscends(numbers, n);
  }

  method FreeIn(first: int, last: int, occupied: set<int>) returns (freeIps: seq<string>, ghost numbers: seq<int>)
    requires 0 <= first <= last + 1 && last < WORD
    requires forall n :: n in occupied ==> first <= n <= last
    ensures ListsFree(freeIps, numbers, first, last, occupied)
    ensures |freeIps| + |occupied| == last - first + 1
  {
    hide ListsFree, NumericToIp;
    freeIps, numbers := [], [];
    ghost var seen: set<int> := {};
    ListStarts(first, occupied);
    for n := first to last + 1
      invariant ListsFree(freeIps, numbers, first, n - 1, occupied)
      invariant forall m :: m in seen <==> m in occupied && m < n
      invariant |freeIps| + |seen| == n - first
    {
      ListGrows(freeIps, numbers, first, n, occupied);
      if n !in occupied {
        freeIps, numbers := freeIps + [NumericToIp(n)], numbers + [n];
      } else {
        seen := seen + {n};
      }
    }
    SameInts(seen, occupied);
  }

  /** `stored` are the addresses in the table; those of the range are the occupied ones. */
  method FreeIpAddressesService(site: Site, stored: seq<int>) returns (r: Result<Report>, ghost numbers: seq<int>)
    ensures r.Err? <==> site.UnknownSite?
    ensures r.Ok? ==>
              var occupied := set n | n in stored && FirstUsable(site) <= n <= LastUsable(site);
              && ListsFree(r.value.freeIps, numbers, FirstUsable(site), LastUsable(site), occupied)
              && r.value.occupiedCount == |occupied|
              && |r.value.freeIps| + r.value.occupiedCount == r.value.total
              && r.value.total == if site.Bolnica? then 510 else 2046
  {
    numbers := [];
    if site == UnknownSite {
      return Err(BadRequest), [];
    }
    SiteRange(site);
    var first, last := FirstUsable(site), LastUsable(site);
    hide IpToNumeric, Quad, NetworkAddress, BroadcastAddress, FirstUsable, LastUsable, ListsFree;
    var occupied := set n | n in stored && first <= n <= last;
    var freeIps;
    freeIps, numbers := FreeIn(first, last, occupied);
    return Ok(Report(last - first + 1, |occupied|, freeIps)), numbers;
  }
}

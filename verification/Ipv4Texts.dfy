/** Which texts are IPv4 addresses, and which numbers they stand for (backend/utils/ip.js:4-27). */
module Ipv4Texts {
  import opened Common
  import opened Strings
  import opened Ipv4

  ghost predicate OctetText(s: string) {
    s != "" && AllDigits(s) && NumberOf(s) <= 255
  }

  /** Up to white space around it, the text is these four numerals with dots between them. */
  ghost predicate Dotted(ip: string, a: string, b: string, c: string, d: string) {
    Strips(ip, a + "." + b + "." + c + "." + d) && OctetText(a) && OctetText(b) && OctetText(c) && OctetText(d)
  }

  /** And this is the number with these octets. */
  ghost predicate StandsFor(ip: string, a: string, b: string, c: string, d: string, n: int) {
    && Dotted(ip, a, b, c, d)
    && n == NumberOf(a) * 0x100_0000 + NumberOf(b) * 0x1_0000 + NumberOf(c) * 0x100 + NumberOf(d)
  }

  lemma JoinOfFour(a: string, b: string, c: string, d: string)
    ensures Join([a, b, c, d], '.') == a + "." + b + "." + c + "." + d
  {
    assert [a, b, c, d][1..] == [b, c, d] && [b, c, d][1..] == [c, d] && [c, d][1..] == [d];
    assert Join([d], '.') == d && Join([c, d], '.') == c + "." + d;
    assert Join([b, c, d], '.') == b + "." + (c + "." + d) == b + "." + c + "." + d;
    assert a + "." + (b + "." + c + "." + d) == a + "." + b + "." + c + "." + d;
  }

  lemma SplitOfFour(a: string, b: string, c: string, d: string)
    requires '.' !in a && '.' !in b && '.' !in c && '.' !in d
    ensures Split(a + "." + b + "." + c + "." + d, '.') == [a, b, c, d]
  {
    JoinOfFour(a, b, c, d);
    SplitOfJoin([a, b, c, d], '.');
  }

  /** White space at the ends of the first and the last piece does not count. */
  lemma PieceOf(before: string, s: string, after: string)
    requires AllSpace(before) && AllSpace(after) && OctetText(s)
    ensures NumberOfPiece(before + s + after) == NumberOf(s) && Trimmed(s)
    ensures '.' !in s && '.' !in before && '.' !in after
  {
    assert Strips(before + s + after, s);
    StrippedIsUnique(before + s + after, s);
  }

  lemma DottedIsValid(ip: string, a: string, b: string, c: string, d: string)
    requires Dotted(ip, a, b, c, d)
    ensures IsValidIPv4(ip)
  {
    hide Split, Trim, Strips, AllSpace, NumberOf;
    StrippedIsUnique(ip, a + "." + b + "." + c + "." + d);
    NoDots(a, b, c, d);
    SplitOfFour(a, b, c, d);
  }

  lemma NoDots(a: string, b: string, c: string, d: string)
    requires OctetText(a) && OctetText(b) && OctetText(c) && OctetText(d)
    ensures '.' !in a && '.' !in b && '.' !in c && '.' !in d
  {
  }

  /** The pieces of the text as it is split, with the white space still around it. */
  lemma PiecesOf(ip: string, a: string, b: string, c: string, d: string)
    requires Dotted(ip, a, b, c, d)
    ensures var pieces := Split(ip, '.');
      && |pieces| == 4
      && NumberOfPiece(pieces[0]) == NumberOf(a) && NumberOfPiece(pieces[1]) == NumberOf(b)
      && NumberOfPiece(pieces[2]) == NumberOf(c) && NumberOfPiece(pieces[3]) == NumberOf(d)
  {
    hide NumberOfPiece, Split, Trim, NumberOf, Trimmed, OctetText, AllSpace;
    var text := a + "." + b + "." + c + "." + d;
    var before, after :| AllSpace(before) && AllSpace(after) && ip == before + text + after;
    FourPieces(before, after, a, b, c, d);
    Regrouped(before, after, a, b, c, d);
    SplitOfFour(before + a, b, c, d + after);
  }

  lemma FourPieces(before: string, after: string, a: string, b: string, c: string, d: string)
    requires AllSpace(before) && AllSpace(after) && OctetText(a) && OctetText(b) && OctetText(c) && OctetText(d)
    ensures NumberOfPiece(before + a) == NumberOf(a) && NumberOfPiece(b) == NumberOf(b)
    ensures NumberOfPiece(c) == NumberOf(c) && NumberOfPiece(d + after) == NumberOf(d)
    ensures '.' !in before + a && '.' !in b && '.' !in c && '.' !in d + after
  {
    hide NumberOfPiece, NumberOf, Trimmed, OctetText, AllSpace;
    NoSpace();
    PieceBefore(before, a);
    PieceBefore("", b);
    PieceBefore("", c);
    PieceOf("", d, after);
    assert "" + b == b && "" + c == c && "" + d + after == d + after;
  }

  lemma PieceBefore(before: string, s: string)
    requires AllSpace(before) && OctetText(s)
    ensures NumberOfPiece(before + s) == NumberOf(s) && '.' !in before + s
  {
    hide NumberOfPiece, NumberOf, Trimmed, OctetText, AllSpace;
    NoSpace();
    PieceOf(before, s, "");
    assert before + s + "" == before + s;
  }

  lemma Regrouped(before: string, after: string, a: string, b: string, c: string, d: string)
    ensures before + (a + "." + b + "." + c + "." + d) + after == (before + a) + "." + b + "." + c + "." + (d + after)
  {
  }

  lemma NoSpace()
    ensures AllSpace("")
  {
  }

  lemma DottedStandsFor(ip: string, a: string, b: string, c: string, d: string)
    requires Dotted(ip, a, b, c, d)
    ensures IpToNumeric(ip).Some? && StandsFor(ip, a, b, c, d, IpToNumeric(ip).value)
  {
    hide NumberOfPiece, Split, Trim, NumberOf, Strips, Reduce, ToUint32;
    DottedIsValid(ip, a, b, c, d);
    PiecesOf(ip, a, b, c, d);
    ReduceFour(Split(ip, '.'), NumberOf(a), NumberOf(b), NumberOf(c), NumberOf(d));
  }

  lemma ValidIsDotted(ip: string) returns (a: string, b: string, c: string, d: string)
    requires IsValidIPv4(ip)
    ensures Dotted(ip, a, b, c, d)
  {
    hide Split, Trim, Strips, NumberOf;
    var parts := Split(Trim(ip), '.');
    a, b, c, d := parts[0], parts[1], parts[2], parts[3];
    assert parts == [a, b, c, d];
    JoinOfFour(a, b, c, d);
    JoinOfSplit(Trim(ip), '.');
    TrimStrips(ip);
  }

  /** A text is an address exactly if, up to white space around it, it is four numerals up to 255 with dots
      between them, and then it stands for the number with these octets. */
  lemma AddressExactlyWhen(ip: string)
    ensures match IpToNumeric(ip)
            case Some(n) => exists a, b, c, d :: StandsFor(ip, a, b, c, d, n)
            case None => forall a, b, c, d :: !Dotted(ip, a, b, c, d)
  {
    hide Dotted, StandsFor;
    if IpToNumeric(ip).Some? {
      var a, b, c, d := ValidIsDotted(ip);
      DottedStandsFor(ip, a, b, c, d);
    } else {
      forall a, b, c, d
        ensures !Dotted(ip, a, b, c, d)
      {
        if Dotted(ip, a, b, c, d) {
          DottedStandsFor(ip, a, b, c, d);
        }
      }
    }
  }
}

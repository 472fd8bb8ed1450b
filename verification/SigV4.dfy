// internal/auth/manager.go: percent-encoding and the canonical query string of
// AWS Signature Version 4.  A `char` below 256 stands for one byte.
module SigV4 {
  import opened Lex

  // ----- percent-encoding (sections 2.1 and 2.3 of RFC 3986) -----

  predicate IsBytes(s: string) {
    forall i :: 0 <= i < |s| ==> s[i] as int < 256
  }

  predicate Unreserved(c: char) {
    'A' <= c <= 'Z' || 'a' <= c <= 'z' || '0' <= c <= '9' || c == '-' || c == '_' || c == '.' || c == '~'
  }

  function HexDigit(n: nat): (c: char)
    requires n < 16
    ensures '0' <= c <= '9' || 'A' <= c <= 'F'
  {
    if n < 10 then ('0' as int + n) as char else ('A' as int + n - 10) as char
  }

  function HexValue(c: char): (n: nat)
    ensures n < 16
  {
    if '0' <= c <= '9' then c as int - '0' as int
    else if 'A' <= c <= 'F' then c as int - 'A' as int + 10
    else 0
  }

  function PercentByte(c: char): string {
    ['%', HexDigit(c as int / 16 % 16), HexDigit(c as int % 16)]
  }

  /** One byte of the input; `keepSlash` is the path form, which leaves '/' alone. */
  function EncodeByte(c: char, keepSlash: bool): string {
    if Unreserved(c) || (keepSlash && c == '/') then [c] else PercentByte(c)
  }

  function Encode(s: string, keepSlash: bool): string {
    if s == "" then "" else EncodeByte(s[0], keepSlash) + Encode(s[1..], keepSlash)
  }

  function Decode(t: string): string {
    if t == "" then ""
    else if t[0] == '%' && |t| >= 3 then [(16 * HexValue(t[1]) + HexValue(t[2])) as char] + Decode(t[3..])
    else [t[0]] + Decode(t[1..])
  }

  const UPPER := {
    'A', 'B', 'C', 'D', 'E', 'F', 'G', 'H', 'I', 'J', 'K', 'L', 'M', 'N', 'O', 'P', 'Q', 'R', 'S', 'T', 'U', 'V', 'W', 'X', 'Y', 'Z'
  }
  const LOWER := {
    'a', 'b', 'c', 'd', 'e', 'f', 'g', 'h', 'i', 'j', 'k', 'l', 'm', 'n', 'o', 'p', 'q', 'r', 's', 't', 'u', 'v', 'w', 'x', 'y', 'z'
  }
  const DIGITS := {'0', '1', '2', '3', '4', '5', '6', '7', '8', '9'}
  /** The unreserved characters of RFC 3986 section 2.3. */
  const UNRESERVED := UPPER + LOWER + DIGITS + {'-', '_', '.', '~'}

  const HEX := "0123456789ABCDEF"

  lemma UpperExactly(c: char)
    ensures 'A' <= c <= 'Z' <==> c in UPPER
  {
    assert forall d: char {:trigger d as int} :: d as int == c as int ==> d == c;
  }

  lemma LowerExactly(c: char)
    ensures 'a' <= c <= 'z' <==> c in LOWER
  {
    assert forall d: char {:trigger d as int} :: d as int == c as int ==> d == c;
  }

  lemma UnreservedExactly(c: char)
    ensures Unreserved(c) <==> c in UNRESERVED
  {
    UpperExactly(c);
    LowerExactly(c);
    assert '0' <= c <= '9' <==> c in DIGITS by {
      assert forall d: char {:trigger d as int} :: d as int == c as int ==> d == c;
    }
  }

  lemma HexDigitExactly(n: nat)
    requires n < 16
    ensures HexDigit(n) == HEX[n]
  {
    assert forall k: nat {:trigger HEX[k]} :: k < 10 ==> HEX[k] as int == '0' as int + k;
    assert forall k: nat {:trigger HEX[k]} :: 10 <= k < 16 ==> HEX[k] as int == 'A' as int + k - 10;
  }

  /** Unreserved bytes, and in paths the slash, are left alone; every other becomes '%' and two upper-case hex digits. */
  lemma EncodeByteExactly(c: char, keepSlash: bool)
    requires c as int < 256
    ensures EncodeByte(c, keepSlash) == if Unreserved(c) || (keepSlash && c == '/') then [c]
                                        else ['%', HEX[c as int / 16], HEX[c as int % 16]]
  {
    HexDigitExactly(c as int / 16);
    HexDigitExactly(c as int % 16);
  }

  lemma HexRoundTrip(n: nat)
    requires n < 16
    ensures HexValue(HexDigit(n)) == n
  {
  }

  lemma DecodePercent(a: char, b: char, rest: string)
    ensures Decode(['%', a, b] + rest) == [(16 * HexValue(a) + HexValue(b)) as char] + Decode(rest)
  {
    assert (['%', a, b] + rest)[3..] == rest;
  }

  lemma DecodePlain(c: char, rest: string)
    requires c != '%'
    ensures Decode([c] + rest) == [c] + Decode(rest)
  {
    assert ([c] + rest)[1..] == rest;
  }

  lemma TwoDigits(c: char)
    requires c as int < 256
    ensures 16 * HexValue(HexDigit(c as int / 16 % 16)) + HexValue(HexDigit(c as int % 16)) == c as int
  {
    HexRoundTrip(c as int / 16 % 16);
    HexRoundTrip(c as int % 16);
  }

  lemma DecodeOneByte(c: char, rest: string, keepSlash: bool)
    requires c as int < 256
    ensures Decode(EncodeByte(c, keepSlash) + rest) == [c] + Decode(rest)
  {
    if Unreserved(c) || (keepSlash && c == '/') {
      DecodePlain(c, rest);
    } else {
      TwoDigits(c);
      DecodePercent(HexDigit(c as int / 16 % 16), HexDigit(c as int % 16), rest);
    }
  }

  lemma {:induction false} DecodeEncode(s: string, keepSlash: bool)
    requires IsBytes(s)
    ensures Decode(Encode(s, keepSlash)) == s
    decreases |s|
  {
    if s != "" {
      DecodeEncode(s[1..], keepSlash);
      DecodeOneByte(s[0], Encode(s[1..], keepSlash), keepSlash);
    }
  }

  lemma {:induction false} EncodeAppends(s: string, t: string, keepSlash: bool)
    ensures Encode(s + t, keepSlash) == Encode(s, keepSlash) + Encode(t, keepSlash)
    decreases |s|
  {
    if s == "" {
      assert s + t == t;
    } else {
      assert (s + t)[1..] == s[1..] + t;
      EncodeAppends(s[1..], t, keepSlash);
    }
  }

  /** uriEncode: the canonical URI of a path. */
  method UriEncode(path: string) returns (encoded: string)
    ensures encoded == CanonicalUri(path)
  {
    if path == "" {
      return "/";
    }
    encoded := "";
    for i := 0 to |path|
      invariant encoded == Encode(path[..i], true)
    {
      var c := path[i];
      EncodeAppends(path[..i], [c], true);
      assert path[..i + 1] == path[..i] + [c];
      assert Encode([c], true) == EncodeByte(c, true);
      if 'A' <= c <= 'Z' || 'a' <= c <= 'z' || '0' <= c <= '9' ||
         c == '-' || c == '_' || c == '.' || c == '~' || c == '/' {
        encoded := encoded + [c];
      } else {
        encoded := encoded + PercentByte(c);
      }
    }
    assert path[..|path|] == path;
  }

  function CanonicalUri(path: string): string {
    if path == "" then "/" else Encode(path, true)
  }

  /** The path that is signed: the empty one counts as "/". */
  function SignedPath(path: string): string {
    if path == "" then "/" else path
  }

  lemma CanonicalUriIsEncoded(path: string)
    ensures CanonicalUri(path) == Encode(SignedPath(path), true)
  {
    assert "/"[1..] == "";
    assert Encode("/", true) == EncodeByte('/', true) + Encode("", true);
  }

  /** Two paths share a canonical URI exactly when they are equal, up to "" being "/". */
  lemma CanonicalUriInjective(p: string, q: string)
    requires IsBytes(p) && IsBytes(q)
    ensures CanonicalUri(p) == CanonicalUri(q) <==> SignedPath(p) == SignedPath(q)
  {
    CanonicalUriIsEncoded(p);
    CanonicalUriIsEncoded(q);
    DecodeEncode(SignedPath(p), true);
    DecodeEncode(SignedPath(q), true);
  }

  // ----- awsQueryEscape -----

  /** strings.ReplaceAll: leftmost, non-overlapping occurrences. */
  function ReplaceAll(s: string, from: string, to: string): string
    requires from != ""
  {
    if s == "" then ""
    else if from <= s then to + ReplaceAll(s[|from|..], from, to)
    else [s[0]] + ReplaceAll(s[1..], from, to)
  }

  /** url.QueryEscape: a space becomes '+', every other byte is percent-encoded as usual. */
  function QueryEscape(s: string): string {
    if s == "" then ""
    else (if s[0] == ' ' then "+" else EncodeByte(s[0], false)) + QueryEscape(s[1..])
  }

  function AwsQueryEscape(s: string): string {
    ReplaceAll(ReplaceAll(QueryEscape(s), "+", "%20"), "%7E", "~")
  }

  /** Where the searched text does not start, a character is copied. */
  lemma ReplaceCopies(c: char, u: string, from: string, to: string)
    requires from != "" && !(from <= [c] + u)
    ensures ReplaceAll([c] + u, from, to) == [c] + ReplaceAll(u, from, to)
  {
    assert ([c] + u)[1..] == u;
  }

  lemma OtherFirst(c: char, u: string, from: string)
    requires from != "" && c != from[0]
    ensures !(from <= [c] + u)
  {
    assert ([c] + u)[0] == c;
  }

  lemma {:induction false} ReplaceSkips(t: string, u: string, from: string, to: string)
    requires from != "" && forall i :: 0 <= i < |t| ==> t[i] != from[0]
    ensures ReplaceAll(t + u, from, to) == t + ReplaceAll(u, from, to)
    decreases |t|
  {
    if t == "" {
      assert t + u == u && t + ReplaceAll(u, from, to) == ReplaceAll(u, from, to);
    } else {
      ReplaceSkips(t[1..], u, from, to);
      OtherFirst(t[0], t[1..] + u, from);
      ReplaceCopies(t[0], t[1..] + u, from, to);
      assert t + u == [t[0]] + (t[1..] + u);
      assert t + ReplaceAll(u, from, to) == [t[0]] + (t[1..] + ReplaceAll(u, from, to));
    }
  }

  lemma PlusIsReplaced(u: string)
    ensures ReplaceAll("+" + u, "+", "%20") == "%20" + ReplaceAll(u, "+", "%20")
  {
    assert ("+" + u)[1..] == u;
  }

  lemma EncodedHasNoPlus(c: char, i: nat)
    requires i < |EncodeByte(c, false)|
    ensures EncodeByte(c, false)[i] != '+'
  {
  }

  lemma {:induction false} SpacesBecomePercent20(s: string)
    ensures ReplaceAll(QueryEscape(s), "+", "%20") == Encode(s, false)
    decreases |s|
  {
    if s != "" {
      var rest := QueryEscape(s[1..]);
      SpacesBecomePercent20(s[1..]);
      if s[0] == ' ' {
        PlusIsReplaced(rest);
        assert EncodeByte(' ', false) == "%20";
      } else {
        forall i | 0 <= i < |EncodeByte(s[0], false)| ensures EncodeByte(s[0], false)[i] != "+"[0] {
          EncodedHasNoPlus(s[0], i);
        }
        ReplaceSkips(EncodeByte(s[0], false), rest, "+", "%20");
      }
    }
  }

  lemma NotTilde(c: char, rest: string)
    requires c as int < 256 && !Unreserved(c)
    ensures !("%7E" <= PercentByte(c) + rest)
  {
    var t := PercentByte(c) + rest;
    assert t[1] == HexDigit(c as int / 16 % 16) && t[2] == HexDigit(c as int % 16);
    HexRoundTrip(c as int / 16 % 16);
    HexRoundTrip(c as int % 16);
    assert HexValue('7') == 7 && HexValue('E') == 14 && '~' as int == 16 * 7 + 14;
    assert "%7E"[1] == '7' && "%7E"[2] == 'E';
  }

  lemma HexIsNotPercent(n: nat)
    requires n < 16
    ensures HexDigit(n) != '%'
  {
  }

  /** No encoded byte is the escape of a tilde, so the second replacement passes over it. */
  lemma TildePassesOver(c: char, rest: string)
    requires c as int < 256
    ensures ReplaceAll(EncodeByte(c, false) + rest, "%7E", "~") == EncodeByte(c, false) + ReplaceAll(rest, "%7E", "~")
  {
    if Unreserved(c) {
      ReplaceSkips([c], rest, "%7E", "~");
    } else {
      var digits := [HexDigit(c as int / 16 % 16), HexDigit(c as int % 16)];
      HexIsNotPercent(c as int / 16 % 16);
      HexIsNotPercent(c as int % 16);
      assert PercentByte(c) + rest == ['%'] + (digits + rest);
      NotTilde(c, rest);
      ReplaceCopies('%', digits + rest, "%7E", "~");
      ReplaceSkips(digits, rest, "%7E", "~");
      assert ['%'] + (digits + ReplaceAll(rest, "%7E", "~")) == PercentByte(c) + ReplaceAll(rest, "%7E", "~");
    }
  }

  lemma {:induction false} NoTildeEscapeToUndo(s: string)
    requires IsBytes(s)
    ensures ReplaceAll(Encode(s, false), "%7E", "~") == Encode(s, false)
    decreases |s|
  {
    if s != "" {
      NoTildeEscapeToUndo(s[1..]);
      TildePassesOver(s[0], Encode(s[1..], false));
    }
  }

  /** The two replacements turn form encoding into plain RFC 3986 percent-encoding. */
  lemma AwsQueryEscapeIsPercentEncoding(s: string)
    requires IsBytes(s)
    ensures AwsQueryEscape(s) == Encode(s, false)
  {
    SpacesBecomePercent20(s);
    NoTildeEscapeToUndo(s);
  }

  // ----- the canonical query string -----

  type Pair = (string, string)

  predicate PairAtMost(a: Pair, b: Pair) {
    Less(a.0, b.0) || (a.0 == b.0 && AtMost(a.1, b.1))
  }

  ghost predicate PairsSorted(ps: seq<Pair>) {
    forall i, j :: 0 <= i < j < |ps| ==> PairAtMost(ps[i], ps[j])
  }

  predicate PairsAreBytes(ps: seq<Pair>) {
    forall i :: 0 <= i < |ps| ==> IsBytes(ps[i].0) && IsBytes(ps[i].1)
  }

  /** The parameters joined in the order given. */
  function Text(ps: seq<Pair>): string {
    if ps == [] then ""
    else if |ps| == 1 then Item(ps[0])
    else Item(ps[0]) + "&" + Text(ps[1..])
  }

  function Item(p: Pair): string {
    AwsQueryEscape(p.0) + "=" + AwsQueryEscape(p.1)
  }

  lemma {:induction false} EncodeAvoids(s: string, c: char)
    requires c == '&' || c == '='
    ensures c !in Encode(s, false)
    decreases |s|
  {
    if s != "" { EncodeAvoids(s[1..], c); }
  }

  lemma {:induction false} FirstSeparator(a: string, x: string, b: string, y: string, c: char)
    requires c !in a && c !in b
    requires a + [c] + x == b + [c] + y
    ensures a == b && x == y
    decreases |a|
  {
    var l, r := a + [c] + x, b + [c] + y;
    if a == "" || b == "" {
      assert a == "" ==> l[0] == c;
      assert b == "" ==> r[0] == c;
      assert l[1..] == r[1..];
    } else {
      assert l[0] == a[0] && r[0] == b[0];
      assert l[1..] == a[1..] + [c] + x && r[1..] == b[1..] + [c] + y;
      FirstSeparator(a[1..], x, b[1..], y, c);
      assert a == [a[0]] + a[1..] && b == [b[0]] + b[1..];
    }
  }

  lemma EncodeInjective(a: string, b: string)
    requires IsBytes(a) && IsBytes(b) && Encode(a, false) == Encode(b, false)
    ensures a == b
  {
    DecodeEncode(a, false);
    DecodeEncode(b, false);
  }

  /** The joined text, with strict percent-encoding. */
  function EncodedText(ps: seq<Pair>): string
    decreases |ps|, 1
  {
    if ps == [] then "" else Encode(ps[0].0, false) + "=" + AfterKey(ps)
  }

  /** What follows the key and '=' of the first parameter. */
  function AfterKey(ps: seq<Pair>): string
    requires ps != []
    decreases |ps|, 0
  {
    if |ps| > 1 then Encode(ps[0].1, false) + "&" + EncodedText(ps[1..]) else Encode(ps[0].1, false)
  }

  lemma ItemIsEncoded(p: Pair)
    requires IsBytes(p.0) && IsBytes(p.1)
    ensures Item(p) == Encode(p.0, false) + "=" + Encode(p.1, false)
  {
    AwsQueryEscapeIsPercentEncoding(p.0);
    AwsQueryEscapeIsPercentEncoding(p.1);
  }

  lemma Regroup(key: string, value: string, rest: string)
    ensures key + "=" + value + "&" + rest == key + "=" + (value + "&" + rest)
  {
  }

  lemma {:induction false} TextIsEncoded(ps: seq<Pair>)
    requires PairsAreBytes(ps)
    ensures Text(ps) == EncodedText(ps)
    decreases |ps|
  {
    if ps != [] {
      ItemIsEncoded(ps[0]);
      TextIsEncoded(ps[1..]);
      Regroup(Encode(ps[0].0, false), Encode(ps[0].1, false), EncodedText(ps[1..]));
    }
  }

  lemma SeparatorShows(u: string, v: string, y: string, c: char)
    requires c !in u
    ensures u != v + [c] + y
  {
    assert (v + [c] + y)[|v|] == c;
  }

  /** The same, for two pieces of text: `more` says whether a separator follows. */
  lemma ValueSplits(u: string, more: bool, x: string, v: string, more': bool, y: string, c: char)
    requires c !in u && c !in v
    requires (if more then u + [c] + x else u) == (if more' then v + [c] + y else v)
    ensures u == v && more == more' && (more ==> x == y)
  {
    SeparatorShows(u, v, y, c);
    SeparatorShows(v, u, x, c);
    if more {
      FirstSeparator(u, x, v, y, c);
    }
  }

  lemma AfterKeyInjective(ps: seq<Pair>, qs: seq<Pair>)
    requires ps != [] && qs != [] && PairsAreBytes(ps) && PairsAreBytes(qs)
    requires AfterKey(ps) == AfterKey(qs)
    ensures ps[0].1 == qs[0].1 && EncodedText(ps[1..]) == EncodedText(qs[1..])
  {
    EncodeAvoids(ps[0].1, '&');
    EncodeAvoids(qs[0].1, '&');
    ValueSplits(Encode(ps[0].1, false), |ps| > 1, EncodedText(ps[1..]),
                Encode(qs[0].1, false), |qs| > 1, EncodedText(qs[1..]), '&');
    EncodeInjective(ps[0].1, qs[0].1);
  }

  lemma FirstPair(ps: seq<Pair>, qs: seq<Pair>)
    requires ps != [] && qs != [] && PairsAreBytes(ps) && PairsAreBytes(qs)
    requires EncodedText(ps) == EncodedText(qs)
    ensures ps[0] == qs[0] && EncodedText(ps[1..]) == EncodedText(qs[1..])
  {
    EncodeAvoids(ps[0].0, '=');
    EncodeAvoids(qs[0].0, '=');
    FirstSeparator(Encode(ps[0].0, false), AfterKey(ps), Encode(qs[0].0, false), AfterKey(qs), '=');
    EncodeInjective(ps[0].0, qs[0].0);
    AfterKeyInjective(ps, qs);
  }

  lemma {:induction false} EncodedTextInjective(ps: seq<Pair>, qs: seq<Pair>)
    requires PairsAreBytes(ps) && PairsAreBytes(qs)
    requires EncodedText(ps) == EncodedText(qs)
    ensures ps == qs
    decreases |ps|
  {
    if ps != [] && qs != [] {
      FirstPair(ps, qs);
      EncodedTextInjective(ps[1..], qs[1..]);
      assert ps == [ps[0]] + ps[1..] && qs == [qs[0]] + qs[1..];
    }
  }

  /** The joined text determines the parameters and their order. */
  lemma TextInjective(ps: seq<Pair>, qs: seq<Pair>)
    requires PairsAreBytes(ps) && PairsAreBytes(qs)
    requires Text(ps) == Text(qs)
    ensures ps == qs
  {
    TextIsEncoded(ps);
    TextIsEncoded(qs);
    EncodedTextInjective(ps, qs);
  }

  function InsertPair(p: Pair, ps: seq<Pair>): seq<Pair> {
    if ps == [] || PairAtMost(p, ps[0]) then [p] + ps else [ps[0]] + InsertPair(p, ps[1..])
  }

  /** The simple form: sort all parameters by key and then by value. */
  function SortPairs(ps: seq<Pair>): seq<Pair> {
    if ps == [] then [] else InsertPair(ps[0], SortPairs(ps[1..]))
  }

  function CanonicalQuery(ps: seq<Pair>): string {
    Text(SortPairs(ps))
  }

  lemma PairTotal(a: Pair, b: Pair)
    ensures PairAtMost(a, b) || PairAtMost(b, a)
    ensures PairAtMost(a, b) && PairAtMost(b, a) ==> a == b
  {
    LessTotal(a.0, b.0);
    LessTotal(a.1, b.1);
    LessIrreflexive(a.0);
    if Less(a.0, b.0) { LessAsymmetric(a.0, b.0); }
    if Less(a.1, b.1) { LessAsymmetric(a.1, b.1); }
  }

  lemma PairTransitive(a: Pair, b: Pair, c: Pair)
    requires PairAtMost(a, b) && PairAtMost(b, c)
    ensures PairAtMost(a, c)
  {
    if Less(a.0, b.0) && Less(b.0, c.0) {
      LessTransitive(a.0, b.0, c.0);
    } else if a.0 == b.0 && b.0 == c.0 && Less(c.1, a.1) {
      LessTotal(a.1, b.1);
      if Less(a.1, b.1) { LessTransitive(c.1, a.1, b.1); }
    }
  }

  lemma {:induction false} InsertKeepsSorted(p: Pair, ps: seq<Pair>)
    requires PairsSorted(ps)
    ensures PairsSorted(InsertPair(p, ps))
    ensures multiset(InsertPair(p, ps)) == multiset{p} + multiset(ps)
    decreases |ps|
  {
    var r := InsertPair(p, ps);
    if ps == [] {
    } else if PairAtMost(p, ps[0]) {
      forall j | 0 < j < |r| ensures PairAtMost(r[0], r[j]) {
        if j > 1 { PairTransitive(p, ps[0], ps[j - 1]); }
      }
    } else {
      PairTotal(p, ps[0]);
      InsertKeepsSorted(p, ps[1..]);
      assert ps == [ps[0]] + ps[1..];
      forall j | 0 < j < |r| ensures PairAtMost(r[0], r[j]) {
        assert r[j] in multiset(InsertPair(p, ps[1..]));
        assert r[j] == p || r[j] in ps[1..];
      }
    }
  }

  lemma {:induction false} SortPairsSorts(ps: seq<Pair>)
    ensures PairsSorted(SortPairs(ps))
    ensures multiset(SortPairs(ps)) == multiset(ps)
    decreases |ps|
  {
    if ps != [] {
      SortPairsSorts(ps[1..]);
      InsertKeepsSorted(ps[0], SortPairs(ps[1..]));
      assert ps == [ps[0]] + ps[1..];
    }
  }

  lemma SortedHeadIsLeast(a: seq<Pair>, p: Pair)
    requires PairsSorted(a) && p in multiset(a)
    ensures PairAtMost(a[0], p)
  {
    PairTotal(p, p);
  }

  lemma TailMultiset(a: seq<Pair>)
    requires a != []
    ensures multiset(a[1..]) == multiset(a) - multiset{a[0]}
  {
    assert a == [a[0]] + a[1..];
  }

  lemma {:induction false} SortedUnique(a: seq<Pair>, b: seq<Pair>)
    requires PairsSorted(a) && PairsSorted(b) && multiset(a) == multiset(b)
    ensures a == b
    decreases |a|
  {
    if a == [] {
      assert |multiset(b)| == |b|;
    } else {
      assert a[0] in multiset(b);
      SortedHeadIsLeast(a, b[0]);
      SortedHeadIsLeast(b, a[0]);
      PairTotal(a[0], b[0]);
      TailMultiset(a);
      TailMultiset(b);
      SortedUnique(a[1..], b[1..]);
      assert a == [a[0]] + a[1..] && b == [b[0]] + b[1..];
    }
  }

  lemma SortedPairsAreBytes(ps: seq<Pair>)
    requires PairsAreBytes(ps)
    ensures PairsAreBytes(SortPairs(ps))
  {
    SortPairsSorts(ps);
    forall i | 0 <= i < |SortPairs(ps)|
      ensures IsBytes(SortPairs(ps)[i].0) && IsBytes(SortPairs(ps)[i].1)
    {
      assert SortPairs(ps)[i] in multiset(ps);
    }
  }

  /** Order never shows, and nothing else is lost: the string is the multiset of parameters. */
  lemma CanonicalQueryIsTheMultiset(ps: seq<Pair>, qs: seq<Pair>)
    requires PairsAreBytes(ps) && PairsAreBytes(qs)
    ensures CanonicalQuery(ps) == CanonicalQuery(qs) <==> multiset(ps) == multiset(qs)
  {
    SortPairsSorts(ps);
    SortPairsSorts(qs);
    if multiset(ps) == multiset(qs) {
      SortedUnique(SortPairs(ps), SortPairs(qs));
    }
    if CanonicalQuery(ps) == CanonicalQuery(qs) {
      SortedPairsAreBytes(ps);
      SortedPairsAreBytes(qs);
      TextInjective(SortPairs(ps), SortPairs(qs));
    }
  }

  // ----- createCanonicalRequest: group, sort the keys, sort each value list, append -----

  /** url.ParseQuery's result: the values of each key in request order. */
  function Grouped(ps: seq<Pair>): map<string, seq<string>> {
    if ps == [] then map[]
    else
      var p, m := ps[|ps| - 1], Grouped(ps[..|ps| - 1]);
      m[p.0 := (if p.0 in m then m[p.0] else []) + [p.1]]
  }

  ghost predicate StringsSorted(xs: seq<string>) {
    forall i, j :: 0 <= i < j < |xs| ==> AtMost(xs[i], xs[j])
  }

  function Tagged(k: string, vs: seq<string>): seq<Pair> {
    seq(|vs|, i requires 0 <= i < |vs| => (k, vs[i]))
  }

  lemma {:induction false} TaggedCounts(k: string, vs: seq<string>)
    ensures forall p: Pair :: multiset(Tagged(k, vs))[p] == if p.0 == k then multiset(vs)[p.1] else 0
    decreases |vs|
  {
    if vs != [] {
      var n := |vs| - 1;
      TaggedCounts(k, vs[..n]);
      assert vs == vs[..n] + [vs[n]];
      assert Tagged(k, vs) == Tagged(k, vs[..n]) + [(k, vs[n])];
    }
  }

  function ValueCount(values: map<string, seq<string>>, p: Pair): nat {
    if p.0 in values then multiset(values[p.0])[p.1] else 0
  }

  lemma {:induction false} GroupedCounts(ps: seq<Pair>)
    ensures forall p: Pair :: multiset(ps)[p] == ValueCount(Grouped(ps), p)
    decreases |ps|
  {
    if ps != [] {
      GroupedCounts(ps[..|ps| - 1]);
      assert ps == ps[..|ps| - 1] + [ps[|ps| - 1]];
    }
  }

  /** The place of a string in a sorted list. */
  method FindPlace(ys: seq<string>, x: string) returns (i: nat)
    ensures i <= |ys| && (i < |ys| ==> AtMost(x, ys[i]))
    ensures forall j :: 0 <= j < i ==> Less(ys[j], x)
  {
    i := 0;
    while i < |ys| && Less(ys[i], x)
      invariant 0 <= i <= |ys|
      invariant forall j :: 0 <= j < i ==> Less(ys[j], x)
    {
      i := i + 1;
    }
  }

  lemma InsertionAddsOne(ys: seq<string>, i: nat, x: string)
    requires i <= |ys|
    ensures multiset(ys[..i] + [x] + ys[i..]) == multiset(ys) + multiset{x}
  {
    assert ys == ys[..i] + ys[i..];
  }

  /** sort.Strings, by its contract; insertion is one way to meet it. */
  method SortStrings(xs: seq<string>) returns (ys: seq<string>)
    ensures StringsSorted(ys) && multiset(ys) == multiset(xs)
  {
    ys := [];
    for n := 0 to |xs|
      invariant StringsSorted(ys) && multiset(ys) == multiset(xs[..n])
    {
      var i := FindPlace(ys, xs[n]);
      InsertionKeepsSorted(ys, i, xs[n]);
      InsertionAddsOne(ys, i, xs[n]);
      assert xs[..n + 1] == xs[..n] + [xs[n]];
      ys := ys[..i] + [xs[n]] + ys[i..];
    }
    assert xs[..|xs|] == xs;
  }

  lemma InsertionKeepsSorted(ys: seq<string>, i: nat, x: string)
    requires StringsSorted(ys) && i <= |ys|
    requires forall j :: 0 <= j < i ==> Less(ys[j], x)
    requires i < |ys| ==> AtMost(x, ys[i])
    ensures StringsSorted(ys[..i] + [x] + ys[i..])
  {
    forall j | 0 <= j < i ensures AtMost(ys[j], x) { LessAsymmetric(ys[j], x); }
    forall j | i <= j < |ys| ensures AtMost(x, ys[j]) {
      PairTransitive(("", x), ("", ys[i]), ("", ys[j])) by {
        LessIrreflexive(ys[i]);
      }
      LessIrreflexive("");
    }
  }

  /** The values of the first keys, each key's values sorted, are a sorted list. */
  lemma AppendingGroupKeepsSorted(pairs: seq<Pair>, k: string, vs: seq<string>)
    requires PairsSorted(pairs) && StringsSorted(vs)
    requires forall i :: 0 <= i < |pairs| ==> Less(pairs[i].0, k)
    ensures PairsSorted(pairs + Tagged(k, vs))
  {
  }

  ghost predicate EachKeyOnce(keys: seq<string>, values: map<string, seq<string>>) {
    forall k :: multiset(keys)[k] == if k in values then 1 else 0
  }

  /** The keys of a map, in whatever order it is ranged over. */
  method CollectKeys(values: map<string, seq<string>>) returns (keys: seq<string>)
    ensures EachKeyOnce(keys, values)
  {
    keys := [];
    var rest := values.Keys;
    while rest != {}
      invariant rest <= values.Keys
      invariant forall k :: multiset(keys)[k] == if k in values && k !in rest then 1 else 0
    {
      var k :| k in rest;
      keys := keys + [k];
      rest := rest - {k};
    }
  }

  /** `pairs` lists, in order, all values of the keys in `done`. */
  ghost predicate Listed(pairs: seq<Pair>, values: map<string, seq<string>>, done: seq<string>) {
    && PairsSorted(pairs)
    && (forall i :: 0 <= i < |pairs| ==> pairs[i].0 in done)
    && (forall p: Pair :: multiset(pairs)[p] == if p.0 in done then ValueCount(values, p) else 0)
  }

  lemma CountsOneMore(pairs: seq<Pair>, values: map<string, seq<string>>, done: seq<string>, k: string, vs: seq<string>, p: Pair)
    requires multiset(pairs)[p] == if p.0 in done then ValueCount(values, p) else 0
    requires k in values && k !in done && multiset(vs) == multiset(values[k])
    ensures multiset(pairs + Tagged(k, vs))[p] == if p.0 in done + [k] then ValueCount(values, p) else 0
  {
    TaggedCounts(k, vs);
    assert multiset(pairs + Tagged(k, vs)) == multiset(pairs) + multiset(Tagged(k, vs));
    assert p.0 in done + [k] <==> p.0 in done || p.0 == k;
  }

  lemma ListingOneMore(pairs: seq<Pair>, values: map<string, seq<string>>, done: seq<string>, k: string, vs: seq<string>)
    requires Listed(pairs, values, done)
    requires k in values && k !in done && StringsSorted(vs) && multiset(vs) == multiset(values[k])
    requires forall i :: 0 <= i < |done| ==> Less(done[i], k)
    ensures Listed(pairs + Tagged(k, vs), values, done + [k])
  {
    var more := pairs + Tagged(k, vs);
    assert PairsSorted(more) by {
      AppendingGroupKeepsSorted(pairs, k, vs);
    }
    forall i | 0 <= i < |more| ensures more[i].0 in done + [k] {
      if i < |pairs| {
        assert pairs[i].0 in done;
      }
    }
    forall p: Pair ensures multiset(more)[p] == if p.0 in done + [k] then ValueCount(values, p) else 0 {
      CountsOneMore(pairs, values, done, k, vs, p);
    }
  }

  lemma ListedAllIsSortPairs(pairs: seq<Pair>, ps: seq<Pair>, keys: seq<string>)
    requires EachKeyOnce(keys, Grouped(ps))
    requires Listed(pairs, Grouped(ps), keys)
    ensures pairs == SortPairs(ps)
  {
    GroupedCounts(ps);
    forall p: Pair ensures multiset(pairs)[p] == multiset(ps)[p] {
      assert p.0 in keys <==> p.0 in multiset(keys);
    }
    assert multiset(pairs) == multiset(ps);
    SortPairsSorts(ps);
    SortedUnique(pairs, SortPairs(ps));
  }

  /** The canonical query part of createCanonicalRequest. */
  method BuildCanonicalQuery(ps: seq<Pair>) returns (queryString: string)
    ensures queryString == CanonicalQuery(ps)
  {
    var values := Grouped(ps);
    var keys := CollectKeys(values);
    keys := SortStrings(keys);
    var pairs := ListPairs(values, keys);
    ListedAllIsSortPairs(pairs, ps, keys);
    queryString := Text(pairs);
  }

  /** The nested loops that append one item for every value of every key. */
  method ListPairs(values: map<string, seq<string>>, keys: seq<string>) returns (pairs: seq<Pair>)
    requires StringsSorted(keys) && EachKeyOnce(keys, values)
    ensures Listed(pairs, values, keys)
  {
    pairs := [];
    for n := 0 to |keys|
      invariant Listed(pairs, values, keys[..n])
    {
      KeysAreDistinct(keys, values, n);
      var vals := SortStrings(values[keys[n]]);
      ListingNext(pairs, values, keys, n, vals);
      pairs := pairs + Tagged(keys[n], vals);
    }
    assert keys[..|keys|] == keys;
  }

  lemma ListingNext(pairs: seq<Pair>, values: map<string, seq<string>>, keys: seq<string>, n: nat, vs: seq<string>)
    requires n < |keys| && StringsSorted(keys) && EachKeyOnce(keys, values)
    requires Listed(pairs, values, keys[..n])
    requires keys[n] in values && StringsSorted(vs) && multiset(vs) == multiset(values[keys[n]])
    ensures Listed(pairs + Tagged(keys[n], vs), values, keys[..n + 1])
  {
    KeysAreDistinct(keys, values, n);
    ListingOneMore(pairs, values, keys[..n], keys[n], vs);
    assert keys[..n + 1] == keys[..n] + [keys[n]];
  }

  lemma KeysAreDistinct(keys: seq<string>, values: map<string, seq<string>>, n: nat)
    requires n < |keys| && StringsSorted(keys)
    requires EachKeyOnce(keys, values)
    ensures keys[n] in values && keys[n] !in keys[..n]
    ensures forall i :: 0 <= i < n ==> Less(keys[i], keys[n])
  {
    assert keys[n] in multiset(keys);
    assert keys == keys[..n] + [keys[n]] + keys[n + 1..];
    forall i | 0 <= i < n ensures Less(keys[i], keys[n]) {
      assert keys[i] in keys[..n];
      LessTotal(keys[i], keys[n]);
    }
  }
}

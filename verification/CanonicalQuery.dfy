/** The canonical query string of a signed request. */
module CanonicalQuery {
  import opened Base
  import opened Strings
  import opened Sorting

  /** A key or a value as it arrives: any bytes.  What is printed is ASCII. */
  type Text = Bytes

  /** The unreserved characters of section 2.3 of RFC 3986. */
  predicate Unreserved(c: char) {
    'A' <= c <= 'Z' || 'a' <= c <= 'z' || '0' <= c <= '9' || c == '-' || c == '_' || c == '.' || c == '~'
  }

  function HexDigit(n: nat): char
    requires n < 16
  {
    if n < 10 then '0' + n as char else 'A' + (n - 10) as char
  }

  function EscapeByte(b: byte): string {
    var c := b as char;
    if Unreserved(c) then [c]
    else if c == ' ' then "+"
    else ['%', HexDigit(b as nat / 16), HexDigit(b as nat % 16)]
  }

  /** `url.QueryEscape`: a space becomes '+'. */
  function QueryEscape(s: Text): string {
    if s == [] then "" else EscapeByte(s[0]) + QueryEscape(s[1..])
  }

  /** `strings.ReplaceAll(s, "+", "%20")`. */
  function ReplacePlus(s: string): string {
    if s == "" then "" else (if s[0] == '+' then "%20" else [s[0]]) + ReplacePlus(s[1..])
  }

  /** `awsEscape`. */
  function AwsEscape(s: Text): string {
    ReplacePlus(QueryEscape(s))
  }

  type Values = map<Text, seq<Text>>
  type Pair = (Text, Text)

  /** One `key=value` part. */
  function PartOf(p: Pair): string {
    AwsEscape(p.0) + "=" + AwsEscape(p.1)
  }

  /** The (key, value) pairs of a query, as a bag. */
  ghost function PairBag(v: Values): multiset<Pair> {
    if v == map[] then multiset{}
    else
      var k :| k in v;
      multiset(PairsOf(k, v[k])) + PairBag(v - {k})
  }

  function PairWith(k: Text): Text -> Pair {
    val => (k, val)
  }

  function PairsOf(k: Text, vals: seq<Text>): seq<Pair> {
    Map(PairWith(k), vals)
  }

  predicate StringLeq(a: string, b: string) {
    LessEq(a, b)
  }

  function Chars(t: Text): string {
    Map((b: byte) => b as char, t)
  }

  predicate TextLeq(a: Text, b: Text) {
    LessEq(Chars(a), Chars(b))
  }

  // `r` is the canonical form: the parts of all pairs, in byte order, joined.
  ghost predicate Canonical(v: Values, r: string) {
    exists pairs: seq<Pair> :: CanonicalBy(v, r, pairs)
  }

  ghost predicate CanonicalBy(v: Values, r: string, pairs: seq<Pair>) {
    multiset(pairs) == PairBag(v) && Sorted(Map(PartOf, pairs), StringLeq) && r == Join(Map(PartOf, pairs), '&')
  }

  lemma StringOrder()
    ensures TotalPreorder(StringLeq) && Antisymmetric(StringLeq)
  {
    forall a, b ensures (StringLeq(a, b) || StringLeq(b, a)) && (StringLeq(a, b) && StringLeq(b, a) ==> a == b) {
      LessEqTotal(a, b);
    }
    forall a, b, c | StringLeq(a, b) && StringLeq(b, c) ensures StringLeq(a, c) {
      LessEqTransitive(a, b, c);
    }
  }

  lemma TextOrder()
    ensures TotalPreorder(TextLeq)
  {
    forall a, b ensures TextLeq(a, b) || TextLeq(b, a) {
      LessEqTotal(Chars(a), Chars(b));
    }
    forall a, b, c | TextLeq(a, b) && TextLeq(b, c) ensures TextLeq(a, c) {
      LessEqTransitive(Chars(a), Chars(b), Chars(c));
    }
  }

  /** `canonicalQuery`, over a map that yields its keys in any order. */
  method CanonicalQuery(v: Values) returns (r: string)
    ensures Canonical(v, r)
  {
    hide PartOf, PairBag, StringLeq, TextLeq, TotalPreorder, Antisymmetric, Sorted;
    hide AwsEscape, PartsOf, PairsOf, Join, Map;
    StringOrder();
    TextOrder();
    NoPairs();
    var parts: seq<string> := [];
    ghost var pairs: seq<Pair> := [];
    var rest := v;
    while rest != map[]
      invariant parts == Map(PartOf, pairs)
      invariant multiset(pairs) + PairBag(rest) == PairBag(v)
      decreases rest.Keys
    {
      var key :| key in rest;
      var vals := Sort(rest[key], TextLeq);
      PairBagRemove(rest, key);
      PairsReordered(key, rest[key], vals);
      ghost var before := parts;
      NoParts(key, vals);
      for i := 0 to |vals|
        invariant parts == before + PartsOf(key, vals[..i])
      {
        PartsSnoc(key, vals, i);
        parts := parts + [AwsEscape(key) + "=" + AwsEscape(vals[i])];
      }
      assert vals[..|vals|] == vals;
      AppendParts(key, vals, pairs);
      pairs := pairs + PairsOf(key, vals);
      rest := rest - {key};
    }
    var sorted := Sort(parts, StringLeq);
    ghost var ordered := PullBack(sorted, pairs);
    assert CanonicalBy(v, Join(sorted, '&'), ordered);
    return Join(sorted, '&');
  }

  // =============================================================== the results

  lemma NoPairs()
    ensures PairBag(map[]) == multiset{}
  {
  }

  lemma PairsReordered(key: Text, vals: seq<Text>, sorted: seq<Text>)
    requires multiset(sorted) == multiset(vals)
    ensures multiset(PairsOf(key, sorted)) == multiset(PairsOf(key, vals))
  {
    MapBag(PairWith(key), sorted, vals);
  }

  ghost function PartsOf(key: Text, vals: seq<Text>): seq<string> {
    Map(PartOf, PairsOf(key, vals))
  }

  lemma AppendParts(key: Text, vals: seq<Text>, pairs: seq<Pair>)
    ensures Map(PartOf, pairs + PairsOf(key, vals)) == Map(PartOf, pairs) + PartsOf(key, vals)
  {
    MapConcat(PartOf, pairs, PairsOf(key, vals));
  }

  lemma NoParts(key: Text, vals: seq<Text>)
    ensures PartsOf(key, vals[..0]) == []
  {
  }

  lemma PartsSnoc(key: Text, vals: seq<Text>, i: nat)
    requires i < |vals|
    ensures PartsOf(key, vals[..i + 1]) == PartsOf(key, vals[..i]) + [AwsEscape(key) + "=" + AwsEscape(vals[i])]
  {
    hide AwsEscape;
    assert vals[..i + 1] == vals[..i] + [vals[i]];
    MapConcat(PairWith(key), vals[..i], [vals[i]]);
    MapConcat(PartOf, PairsOf(key, vals[..i]), [(key, vals[i])]);
    MapOne((key, vals[i]));
  }

  lemma PickPair(v: Values) returns (j: Text)
    requires v != map[]
    ensures j in v && PairBag(v) == multiset(PairsOf(j, v[j])) + PairBag(v - {j})
  {
    j :| j in v && PairBag(v) == multiset(PairsOf(j, v[j])) + PairBag(v - {j});
  }

  /** The bag does not depend on which key is taken first. */
  lemma {:induction false} PairBagRemove(v: Values, k: Text)
    requires k in v
    ensures PairBag(v) == multiset(PairsOf(k, v[k])) + PairBag(v - {k})
    decreases v.Keys
  {
    hide PairBag, PairsOf;
    var j := PickPair(v);
    if j != k {
      PairBagRemove(v - {j}, k);
      PairBagRemove(v - {k}, j);
      assert v - {j} - {k} == v - {k} - {j};
    }
  }

  // One pair printed as `part`, and the others.
  lemma TakePair(part: string, pairs: seq<Pair>) returns (p: Pair, rest: seq<Pair>)
    requires part in Map(PartOf, pairs)
    ensures PartOf(p) == part
    ensures multiset(pairs) == multiset{p} + multiset(rest)
    ensures multiset(Map(PartOf, pairs)) == multiset{part} + multiset(Map(PartOf, rest))
  {
    hide PartOf;
    var i :| 0 <= i < |pairs| && Map(PartOf, pairs)[i] == part;
    p, rest := pairs[i], pairs[..i] + pairs[i + 1..];
    SplitAround(pairs, i);
  }

  lemma SplitAround(pairs: seq<Pair>, i: nat)
    requires i < |pairs|
    ensures var rest := pairs[..i] + pairs[i + 1..];
            && multiset(pairs) == multiset{pairs[i]} + multiset(rest)
            && multiset(Map(PartOf, pairs)) == multiset{PartOf(pairs[i])} + multiset(Map(PartOf, rest))
  {
    hide PartOf, Map;
    var a, p, b := pairs[..i], [pairs[i]], pairs[i + 1..];
    assert pairs == a + p + b;
    MapConcat(PartOf, a + p, b);
    MapConcat(PartOf, a, p);
    MapConcat(PartOf, a, b);
    MapOne(pairs[i]);
  }

  lemma MapOne(p: Pair)
    ensures Map(PartOf, [p]) == [PartOf(p)]
  {
  }

  /** Any arrangement of the parts comes from an arrangement of the pairs. */
  lemma {:induction false} PullBack(parts: seq<string>, pairs: seq<Pair>) returns (ordered: seq<Pair>)
    requires multiset(parts) == multiset(Map(PartOf, pairs))
    ensures Map(PartOf, ordered) == parts && multiset(ordered) == multiset(pairs)
    decreases parts
  {
    hide PartOf;
    SameLength(parts, Map(PartOf, pairs));
    if parts == [] {
      return [];
    }
    assert parts == [parts[0]] + parts[1..];
    assert parts[0] in multiset(Map(PartOf, pairs));
    var p, rest := TakePair(parts[0], pairs);
    assert multiset(parts[1..]) == multiset(parts) - multiset{parts[0]} == multiset(Map(PartOf, rest));
    var tail := PullBack(parts[1..], rest);
    ordered := [p] + tail;
    MapConcat(PartOf, [p], tail);
    MapOne(p);
  }

  // What one byte becomes.
  function Escaped(b: byte): string {
    if b as char == ' ' then "%20" else EscapeByte(b)
  }

  lemma ReplacePlusHead(s: string)
    ensures ReplacePlus(s) ==
            if s == "" then "" else (if s[0] == '+' then "%20" else [s[0]]) + ReplacePlus(s[1..])
  {
  }

  lemma {:induction false} ReplacePlusConcat(a: string, b: string)
    ensures ReplacePlus(a + b) == ReplacePlus(a) + ReplacePlus(b)
  {
    hide ReplacePlus;
    if a == "" {
      ReplacePlusHead(a);
      assert a + b == b;
    } else {
      ReplacePlusConcat(a[1..], b);
      ReplacePlusHead(a + b);
      ReplacePlusHead(a);
      assert (a + b)[1..] == a[1..] + b;
      var head := if a[0] == '+' then "%20" else [a[0]];
      assert head + (ReplacePlus(a[1..]) + ReplacePlus(b)) == head + ReplacePlus(a[1..]) + ReplacePlus(b);
    }
  }

  lemma ReplacePlusByte(b: byte)
    ensures ReplacePlus(EscapeByte(b)) == Escaped(b)
  {
    var c := b as char;
    if c == ' ' {
      assert EscapeByte(b) == "+";
      assert ReplacePlus("+") == "%20" + ReplacePlus("");
    } else if Unreserved(c) {
      assert [c][1..] == "";
      assert ReplacePlus([c]) == [c] + ReplacePlus("");
    } else {
      var e := EscapeByte(b);
      assert e[1..][1..][1..] == "";
      assert ReplacePlus(e[1..][1..]) == [e[2]] + ReplacePlus("");
      assert ReplacePlus(e[1..]) == [e[1]] + ReplacePlus(e[1..][1..]);
      assert ReplacePlus(e) == [e[0]] + ReplacePlus(e[1..]);
      assert e == [e[0], e[1], e[2]];
    }
  }

  /** Escaping goes byte by byte. */
  lemma AwsEscapeStep(s: Text)
    requires s != []
    ensures AwsEscape(s) == Escaped(s[0]) + AwsEscape(s[1..])
  {
    ReplacePlusConcat(EscapeByte(s[0]), QueryEscape(s[1..]));
    ReplacePlusByte(s[0]);
  }

  /** Escaped text consists of unreserved characters and '%' only, so never of '&', '=' or '+'. */
  lemma {:induction false} EscapeAlphabet(s: Text)
    ensures forall i :: 0 <= i < |AwsEscape(s)| ==> Unreserved(AwsEscape(s)[i]) || AwsEscape(s)[i] == '%'
  {
    if s != [] {
      AwsEscapeStep(s);
      EscapeAlphabet(s[1..]);
      assert forall i :: 0 <= i < |Escaped(s[0])| ==> Unreserved(Escaped(s[0])[i]) || Escaped(s[0])[i] == '%';
    }
  }

  function HexValue(c: char): (n: nat)
    ensures n < 16
  {
    if '0' <= c <= '9' then (c - '0') as nat else if 'A' <= c <= 'F' then (c - 'A') as nat + 10 else 0
  }

  /** Percent-decoding, section 2.1 of RFC 3986. */
  function Unescape(t: string): Text {
    if t == "" then []
    else if t[0] == '%' && |t| >= 3 then [(HexValue(t[1]) * 16 + HexValue(t[2])) as byte] + Unescape(t[3..])
    else [(t[0] as int % 256) as byte] + Unescape(t[1..])
  }

  lemma UnescapeByte(b: byte, rest: string)
    ensures Unescape(Escaped(b) + rest) == [b] + Unescape(rest)
  {
    var c := b as char;
    var e := Escaped(b);
    var t := e + rest;
    if Unreserved(c) {
      assert t[1..] == rest;
    } else {
      assert |e| == 3 && t[0] == '%' && t[1] == e[1] && t[2] == e[2];
      assert t[3..] == rest;
      assert HexValue(e[1]) == b as nat / 16 && HexValue(e[2]) == b as nat % 16;
    }
  }

  /** Decoding gives the bytes back, so no two strings escape alike. */
  lemma {:induction false} EscapeRoundTrip(s: Text)
    ensures Unescape(AwsEscape(s)) == s
  {
    if s != [] {
      AwsEscapeStep(s);
      UnescapeByte(s[0], AwsEscape(s[1..]));
      EscapeRoundTrip(s[1..]);
    }
  }

  lemma NoSeparators(s: Text)
    ensures '&' !in AwsEscape(s) && '=' !in AwsEscape(s)
  {
    EscapeAlphabet(s);
  }

  /** A part determines its pair. */
  lemma PartInjective(p: Pair, q: Pair)
    requires PartOf(p) == PartOf(q)
    ensures p == q
  {
    NoSeparators(p.0);
    NoSeparators(q.0);
    var a, b := AwsEscape(p.0), AwsEscape(q.0);
    IndexAfter(a, '=', AwsEscape(p.1));
    IndexAfter(b, '=', AwsEscape(q.1));
    assert PartOf(p) == a + ['='] + AwsEscape(p.1) && PartOf(q) == b + ['='] + AwsEscape(q.1);
    assert PartOf(p)[..|a|] == a && PartOf(q)[..|b|] == b;
    assert PartOf(p)[|a| + 1..] == AwsEscape(p.1) && PartOf(q)[|b| + 1..] == AwsEscape(q.1);
    EscapeRoundTrip(p.0);
    EscapeRoundTrip(q.0);
    EscapeRoundTrip(p.1);
    EscapeRoundTrip(q.1);
  }

  lemma PartShape(p: Pair)
    ensures '&' !in PartOf(p) && PartOf(p) != ""
  {
    NoSeparators(p.0);
    NoSeparators(p.1);
  }

  lemma JoinNonEmpty(parts: seq<string>)
    requires parts != [] && parts[0] != ""
    ensures Join(parts, '&') != ""
  {
  }

  /** Equal joined strings come from equal lists of parts. */
  lemma JoinedPartsEqual(p: seq<Pair>, q: seq<Pair>)
    requires Join(Map(PartOf, p), '&') == Join(Map(PartOf, q), '&')
    ensures Map(PartOf, p) == Map(PartOf, q)
  {
    forall x: Pair ensures '&' !in PartOf(x) && PartOf(x) != "" {
      PartShape(x);
    }
    hide PartOf;
    if p == [] || q == [] {
      if p != [] {
        JoinNonEmpty(Map(PartOf, p));
      }
      if q != [] {
        JoinNonEmpty(Map(PartOf, q));
      }
    } else {
      SplitJoin(Map(PartOf, p), '&');
      SplitJoin(Map(PartOf, q), '&');
    }
  }

  lemma PairsEqual(p: seq<Pair>, q: seq<Pair>)
    requires Map(PartOf, p) == Map(PartOf, q)
    ensures p == q
  {
    forall i | 0 <= i < |p| ensures i < |q| && p[i] == q[i] {
      assert Map(PartOf, p)[i] == Map(PartOf, q)[i];
      PartInjective(p[i], q[i]);
    }
    assert |Map(PartOf, p)| == |p| && |Map(PartOf, q)| == |q|;
  }

  /**
   Two queries have the same canonical form exactly when they are the same bag of
   (key, value) pairs: neither the order of the map nor the order of the values
   of a key shows, and nothing else is lost.
   */
  lemma CanonicalExactly(v: Values, r: string, w: Values, s: string)
    requires Canonical(v, r) && Canonical(w, s)
    ensures r == s <==> PairBag(v) == PairBag(w)
  {
    hide PartOf, PairBag, StringLeq;
    var p :| CanonicalBy(v, r, p);
    var q :| CanonicalBy(w, s, q);
    if r == s {
      JoinedPartsEqual(p, q);
      PairsEqual(p, q);
    }
    if PairBag(v) == PairBag(w) {
      MapBag(PartOf, p, q);
      StringOrder();
      SortedUnique(Map(PartOf, p), Map(PartOf, q), StringLeq);
    }
  }

  // ------------------------------------------------------ reading a canonical form

  lemma AwsEscapeConcat(s: Text, t: Text)
    ensures AwsEscape(s + t) == AwsEscape(s) + AwsEscape(t)
  {
    QueryEscapeConcat(s, t);
    ReplacePlusConcat(QueryEscape(s), QueryEscape(t));
  }

  lemma {:induction false} QueryEscapeConcat(s: Text, t: Text)
    ensures QueryEscape(s + t) == QueryEscape(s) + QueryEscape(t)
  {
    if s == [] {
      assert s + t == t;
    } else {
      assert (s + t)[1..] == s[1..] + t;
      QueryEscapeConcat(s[1..], t);
    }
  }

  /**
   What becomes of each byte: letters, digits, '-', '.', '_' and '~', by their
   codes, stay as they are; any other byte is '%' and two capital hex digits.
   Texts are escaped byte by byte.
   */
  lemma EscapeExactly(b: byte, s: Text, t: Text)
    ensures AwsEscape([b]) ==
            if 48 <= b <= 57 || 65 <= b <= 90 || 97 <= b <= 122 || b == 45 || b == 46 || b == 95 || b == 126
            then [b as char]
            else ['%', "0123456789ABCDEF"[b as nat / 16], "0123456789ABCDEF"[b as nat % 16]]
    ensures AwsEscape(s + t) == AwsEscape(s) + AwsEscape(t)
  {
    hide AwsEscape, Escaped;
    AwsEscapeConcat(s, t);
    AwsEscapeOne(b);
    EscapedExactly(b);
  }

  lemma AwsEscapeOne(b: byte)
    ensures AwsEscape([b]) == Escaped(b)
  {
    AwsEscapeStep([b]);
    assert [b][1..] == [];
    assert AwsEscape([]) == "";
  }

  lemma HexDigitAt(n: nat)
    requires n < 16
    ensures "0123456789ABCDEF"[n] == HexDigit(n)
  {
  }

  lemma EscapedExactly(b: byte)
    ensures Escaped(b) ==
            if 48 <= b <= 57 || 65 <= b <= 90 || 97 <= b <= 122 || b == 45 || b == 46 || b == 95 || b == 126
            then [b as char]
            else ['%', "0123456789ABCDEF"[b as nat / 16], "0123456789ABCDEF"[b as nat % 16]]
  {
    hide HexDigit;
    HexDigitAt(b as nat / 16);
    HexDigitAt(b as nat % 16);
    if b == 32 {
      HexDigitAt(2);
      HexDigitAt(0);
      assert Escaped(b) == ['%', '2', '0'];
      SpaceDigits();
    }
  }

  lemma SpaceDigits()
    ensures HexDigit(2) == '2' && HexDigit(0) == '0'
  {
  }

  /** The pair a part stands for: what comes before and after the first '='. */
  function ReadPart(part: string): Pair {
    var i := Index(part, '=');
    (Unescape(part[..i]), if i < |part| then Unescape(part[i + 1..]) else [])
  }

  /** The pairs a query string lists. */
  function ReadQuery(r: string): seq<Pair> {
    if r == "" then [] else Map(ReadPart, Split(r, '&'))
  }

  lemma ReadPartOf(p: Pair)
    ensures ReadPart(PartOf(p)) == p
  {
    hide AwsEscape, Unescape;
    NoSeparators(p.0);
    EscapeRoundTrip(p.0);
    EscapeRoundTrip(p.1);
    var a, b := AwsEscape(p.0), AwsEscape(p.1);
    IndexAfter(a, '=', b);
    assert PartOf(p) == a + ['='] + b;
    assert (a + ['='] + b)[..|a|] == a && (a + ['='] + b)[|a| + 1..] == b;
  }

  lemma ReadJoined(pairs: seq<Pair>)
    ensures ReadQuery(Join(Map(PartOf, pairs), '&')) == pairs
    ensures pairs != [] ==> Split(Join(Map(PartOf, pairs), '&'), '&') == Map(PartOf, pairs)
  {
    hide PartOf, ReadPart, Split;
    forall x: Pair ensures '&' !in PartOf(x) && PartOf(x) != "" && ReadPart(PartOf(x)) == x {
      PartShape(x);
      ReadPartOf(x);
    }
    if pairs == [] {
      assert Map(PartOf, pairs) == [];
    } else {
      JoinNonEmpty(Map(PartOf, pairs));
      SplitJoin(Map(PartOf, pairs), '&');
      assert Map(ReadPart, Map(PartOf, pairs)) == pairs;
    }
  }

  lemma PairsOfFirst(k: Text, vals: seq<Text>)
    ensures vals == [] ==> PairsOf(k, vals) == []
    ensures vals != [] ==> PairsOf(k, vals) == [(k, vals[0])] + PairsOf(k, vals[1..])
  {
  }

  lemma {:induction false} PairsOfCount(k: Text, vals: seq<Text>, p: Pair)
    ensures multiset(PairsOf(k, vals))[p] == if p.0 == k then multiset(vals)[p.1] else 0
  {
    hide PairsOf;
    PairsOfFirst(k, vals);
    if vals != [] {
      PairsOfCount(k, vals[1..], p);
      CountFirst((k, vals[0]), PairsOf(k, vals[1..]), p);
      CountFirst(vals[0], vals[1..], p.1);
      assert vals == [vals[0]] + vals[1..];
    }
  }

  lemma CountFirst<A>(first: A, rest: seq<A>, x: A)
    ensures multiset([first] + rest)[x] == multiset(rest)[x] + if x == first then 1 else 0
  {
  }

  /** A pair is in the bag as often as its value is listed under its key. */
  lemma {:induction false} PairBagExactly(v: Values, p: Pair)
    ensures PairBag(v)[p] == if p.0 in v then multiset(v[p.0])[p.1] else 0
    decreases v.Keys
  {
    hide PairBag, PairsOf;
    if v == map[] {
      NoPairs();
    } else {
      var k := PickPair(v);
      PairBagExactly(v - {k}, p);
      PairsOfCount(k, v[k], p);
    }
  }

  /**
   The canonical form, read back: split at '&' and '=' and percent-decoded, it
   lists each value of each key as often as the query does and nothing else, in
   the byte order of the parts.
   */
  lemma CanonicalReads(v: Values, r: string, p: Pair)
    requires Canonical(v, r)
    ensures multiset(ReadQuery(r))[p] == if p.0 in v then multiset(v[p.0])[p.1] else 0
    ensures r != "" ==> var parts := Split(r, '&');
                        forall i, j :: 0 <= i < j < |parts| ==> FirstDifference(parts[i], parts[j])
  {
    hide PartOf, PairBag, ReadQuery, Split, LessEq, Join, FirstDifference, Map;
    var pairs :| CanonicalBy(v, r, pairs);
    ReadJoined(pairs);
    PairBagExactly(v, p);
    if r != "" {
      if pairs == [] {
        NothingJoined();
      }
      var parts := Split(r, '&');
      forall i, j | 0 <= i < j < |parts| ensures FirstDifference(parts[i], parts[j]) {
        assert StringLeq(parts[i], parts[j]);
        LessEqExactly(parts[i], parts[j]);
      }
    }
  }

  lemma NothingJoined()
    ensures Join(Map(PartOf, []), '&') == ""
  {
    assert Map(PartOf, []) == [];
  }
}

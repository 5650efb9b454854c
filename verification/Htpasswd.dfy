/** Password files: the apr1 hash as it is printed and checked. */
module Htpasswd {
  import opened Base
  import opened Strings

  const MAGIC := "$apr1$"
  const LOW_DIGITS := "./0123456789"
  const UPPER := "ABCDEFGHIJKLMNOPQRSTUVWXYZ"
  const LOWER := "abcdefghijklmnopqrstuvwxyz"
  const ITOA64 := LOW_DIGITS + UPPER + LOWER

  /** The hash functions behind the formats; nothing is assumed about them. */
  datatype Crypto = Crypto(
    digest: (string, string) -> Digest,        // the 1000-round MD5 mixing of password and salt
    bcryptMatches: (string, string) -> bool,   // bcrypt's own comparison
    sha1Base64: string -> string)

  type Digest = d: seq<byte> | |d| == 16 witness seq(16, _ => 0 as byte)

  function Pow64(n: nat): nat {
    if n == 0 then 1 else 64 * Pow64(n - 1)
  }

  /** `n` base-64 digits of `v`, the lowest first. */
  function To64(v: nat, n: nat): (s: string)
    ensures |s| == n
  {
    if n == 0 then "" else [ITOA64[v % 64]] + To64(v / 64, n - 1)
  }

  /** `to64`: masking and shifting an unsigned word. */
  method To64Loop(v: nat, n: nat) returns (s: string)
    requires v < 0x1_0000_0000
    ensures s == To64(v, n)
  {
    s := "";
    var rest := v;
    for i := 0 to n
      invariant s + To64(rest, n - i) == To64(v, n)
    {
      assert s + To64(rest, n - i) == (s + [ITOA64[rest % 64]]) + To64(rest / 64, n - i - 1);
      s := s + [ITOA64[rest % 64]];
      rest := rest / 64;
    }
    assert s + "" == s;
  }

  function Group(a: byte, b: byte, c: byte): nat {
    a as nat * 65536 + b as nat * 256 + c as nat
  }

  /** The printed form of a digest: five 24-bit groups in the format's own byte order, and one byte alone. */
  function Layout(d: Digest): (s: string)
    ensures |s| == 22
  {
    To64(Group(d[0], d[6], d[12]), 4) + To64(Group(d[1], d[7], d[13]), 4) + To64(Group(d[2], d[8], d[14]), 4) +
    To64(Group(d[3], d[9], d[15]), 4) + To64(Group(d[4], d[10], d[5]), 4) + To64(d[11] as nat, 2)
  }

  /** The salt a hash uses: up to the first '$', at most 8 characters. */
  function UsedSalt(salt: string): string {
    var cut := salt[..Index(salt, '$')];
    cut[..Min(8, |cut|)]
  }

  /** `md5Crypt` with the apr1 magic. */
  function Md5Crypt(c: Crypto, password: string, salt: string): string {
    var s := UsedSalt(salt);
    MAGIC + s + "$" + Layout(c.digest(password, s))
  }

  /** `md5Crypt`, writing the pieces out one by one. */
  method Md5CryptPrint(c: Crypto, password: string, salt: string) returns (b: string)
    ensures b == Md5Crypt(c, password, salt)
    ensures exists s, tail :: CutsTo(salt, s) && IsTail(tail) && b == "$apr1$" + s + "$" + tail
                              && Unprint(tail) == c.digest(password, s)
  {
    PrintedDecodes(c, password, salt);
    var s := salt;
    var idx := Index(s, '$');
    if idx < |s| {
      s := s[..idx];
    }
    if |s| > 8 {
      s := s[..8];
    }
    assert s == UsedSalt(salt);
    var final := c.digest(password, s);
    var g0 := To64Loop(Group(final[0], final[6], final[12]), 4);
    var g1 := To64Loop(Group(final[1], final[7], final[13]), 4);
    var g2 := To64Loop(Group(final[2], final[8], final[14]), 4);
    var g3 := To64Loop(Group(final[3], final[9], final[15]), 4);
    var g4 := To64Loop(Group(final[4], final[10], final[5]), 4);
    var g5 := To64Loop(final[11] as nat, 2);
    b := MAGIC + s + "$" + (g0 + g1 + g2 + g3 + g4 + g5);
  }

  /** `apr1Hash`: the hash of a password under the salt of a stored entry. */
  function Apr1Hash(c: Crypto, password: string, hashed: string): string {
    var parts := Split(hashed, '$');
    if |parts| < 4 then "" else Md5Crypt(c, password, parts[2])
  }

  function TrimPrefix(s: string, prefix: string): string {
    if prefix <= s then s[|prefix|..] else s
  }

  /** `verifyPassword`. */
  predicate VerifyPassword(c: Crypto, plain: string, hashed: string) {
    if "$2y$" <= hashed || "$2a$" <= hashed || "$2b$" <= hashed then
      c.bcryptMatches("$2a$" + TrimPrefix(TrimPrefix(TrimPrefix(hashed, "$2y$"), "$2a$"), "$2b$"), plain)
    else if "{SHA}" <= hashed then "{SHA}" + c.sha1Base64(plain) == hashed
    else if MAGIC <= hashed then Apr1Hash(c, plain, hashed) == hashed
    else false
  }

  // =============================================================== the results

  // The `i`-th base-64 digit.
  function Digit(i: nat): char
    requires i < 64
  {
    if i == 0 then '.'
    else if i == 1 then '/'
    else if i < 12 then '0' + (i - 2) as char
    else if i < 38 then 'A' + (i - 12) as char
    else 'a' + (i - 38) as char
  }

  lemma LowDigitAt(i: nat)
    requires i < 12
    ensures LOW_DIGITS[i] == Digit(i)
  {
  }

  lemma UpperAt(i: nat)
    requires i < 26
    ensures UPPER[i] == 'A' + i as char
  {
  }

  lemma LowerAt(i: nat)
    requires i < 26
    ensures LOWER[i] == 'a' + i as char
  {
  }

  lemma AlphabetAt(i: nat)
    requires i < 64
    ensures ITOA64[i] == Digit(i)
  {
    if i < 12 {
      LowDigitAt(i);
    } else if i < 38 {
      UpperAt(i - 12);
    } else {
      LowerAt(i - 38);
    }
  }

  lemma DigitInjective(i: nat, j: nat)
    requires i < 64 && j < 64 && ITOA64[i] == ITOA64[j]
    ensures i == j
  {
    AlphabetAt(i);
    AlphabetAt(j);
  }

  /** `n` digits are enough for values below 64 to the n: no two print alike. */
  lemma {:induction false} To64Injective(v: nat, w: nat, n: nat)
    requires v < Pow64(n) && w < Pow64(n) && To64(v, n) == To64(w, n)
    ensures v == w
  {
    if n > 0 {
      assert To64(v, n)[0] == To64(w, n)[0];
      DigitInjective(v % 64, w % 64);
      assert To64(v, n)[1..] == To64(v / 64, n - 1) && To64(w, n)[1..] == To64(w / 64, n - 1);
      To64Injective(v / 64, w / 64, n - 1);
    }
  }

  lemma GroupInjective(a: byte, b: byte, c: byte, x: byte, y: byte, z: byte)
    requires To64(Group(a, b, c), 4) == To64(Group(x, y, z), 4)
    ensures a == x && b == y && c == z
  {
    assert Pow64(4) == 16777216;
    To64Injective(Group(a, b, c), Group(x, y, z), 4);
  }

  lemma ByteInjective(a: byte, b: byte)
    requires To64(a as nat, 2) == To64(b as nat, 2)
    ensures a == b
  {
    assert Pow64(2) == 4096;
    To64Injective(a as nat, b as nat, 2);
  }

  /** The layout covers all 16 bytes: 22 characters determine the digest. */
  lemma LayoutInjective(d: Digest, e: Digest)
    requires Layout(d) == Layout(e)
    ensures d == e
  {
    hide Layout, To64, Pow64;
    LayoutParts(d);
    LayoutParts(e);
    GroupInjective(d[0], d[6], d[12], e[0], e[6], e[12]);
    GroupInjective(d[1], d[7], d[13], e[1], e[7], e[13]);
    GroupInjective(d[2], d[8], d[14], e[2], e[8], e[14]);
    GroupInjective(d[3], d[9], d[15], e[3], e[9], e[15]);
    GroupInjective(d[4], d[10], d[5], e[4], e[10], e[5]);
    ByteInjective(d[11], e[11]);
    assert forall i :: 0 <= i < 16 ==> d[i] == e[i];
  }

  lemma LayoutParts(d: Digest)
    ensures var s := Layout(d);
            && s[..4] == To64(Group(d[0], d[6], d[12]), 4) && s[4..8] == To64(Group(d[1], d[7], d[13]), 4)
            && s[8..12] == To64(Group(d[2], d[8], d[14]), 4) && s[12..16] == To64(Group(d[3], d[9], d[15]), 4)
            && s[16..20] == To64(Group(d[4], d[10], d[5]), 4) && s[20..] == To64(d[11] as nat, 2)
  {
    hide To64;
  }

  lemma {:induction false} To64NoDollar(v: nat, n: nat)
    ensures '$' !in To64(v, n)
  {
    if n > 0 {
      AlphabetAt(v % 64);
      To64NoDollar(v / 64, n - 1);
    }
  }

  lemma LayoutNoDollar(d: Digest)
    ensures '$' !in Layout(d)
  {
    To64NoDollar(Group(d[0], d[6], d[12]), 4);
    To64NoDollar(Group(d[1], d[7], d[13]), 4);
    To64NoDollar(Group(d[2], d[8], d[14]), 4);
    To64NoDollar(Group(d[3], d[9], d[15]), 4);
    To64NoDollar(Group(d[4], d[10], d[5]), 4);
    To64NoDollar(d[11] as nat, 2);
  }

  // ------------------------------------------------------ reading a printed digest

  /** The number a base-64 digit stands for: '.', '/', then digits, capitals and small letters. */
  function Value64(c: char): (n: nat)
    ensures n < 64
  {
    if c == '.' then 0
    else if c == '/' then 1
    else if '0' <= c <= '9' then c as nat - 48 + 2
    else if 'A' <= c <= 'Z' then c as nat - 65 + 12
    else if 'a' <= c <= 'z' then c as nat - 97 + 38
    else 0
  }

  predicate IsDigit64(c: char) {
    c == '.' || c == '/' || '0' <= c <= '9' || 'A' <= c <= 'Z' || 'a' <= c <= 'z'
  }

  /** The word four digits stand for, the lowest first. */
  function Word(s: string): (n: nat)
    requires |s| == 4
    ensures n < 16777216
  {
    Value64(s[0]) + 64 * Value64(s[1]) + 4096 * Value64(s[2]) + 262144 * Value64(s[3])
  }

  function High(w: nat): byte {
    (w / 65536 % 256) as byte
  }

  function Middle(w: nat): byte {
    (w / 256 % 256) as byte
  }

  function Lowest(w: nat): byte {
    (w % 256) as byte
  }

  // 22 digits, of which the last two stand for one byte.
  predicate IsTail(s: string) {
    && |s| == 22 && (forall i :: 0 <= i < 22 ==> IsDigit64(s[i]))
    && Value64(s[20]) + 64 * Value64(s[21]) < 256
  }

  /** The digest 22 characters stand for, byte by byte. */
  function Unprint(s: string): Digest
    requires |s| == 22
  {
    var g0, g1, g2, g3, g4 := Word(s[..4]), Word(s[4..8]), Word(s[8..12]), Word(s[12..16]), Word(s[16..20]);
    [High(g0), High(g1), High(g2), High(g3), High(g4), Lowest(g4),
     Middle(g0), Middle(g1), Middle(g2), Middle(g3), Middle(g4), Lowest(Value64(s[20]) + 64 * Value64(s[21])),
     Lowest(g0), Lowest(g1), Lowest(g2), Lowest(g3)]
  }

  // `s` is what `salt` is cut to: everything before the first '$', at most 8 characters.
  predicate CutsTo(salt: string, s: string) {
    && s <= salt && |s| <= 8 && '$' !in s
    && (|s| == 8 || s == salt || salt[|s|] == '$')
  }

  function Char64(i: nat): char
    requires i < 64
  {
    ITOA64[i]
  }

  lemma ValueOfDigit(i: nat)
    requires i < 64
    ensures Value64(Char64(i)) == i && IsDigit64(Char64(i))
  {
    AlphabetAt(i);
  }

  lemma DigitOfValue(c: char)
    requires IsDigit64(c)
    ensures Char64(Value64(c)) == c
  {
    AlphabetAt(Value64(c));
  }

  lemma To64Digits(v: nat)
    ensures To64(v, 4) == [Char64(v % 64), Char64(v / 64 % 64), Char64(v / 64 / 64 % 64), Char64(v / 64 / 64 / 64 % 64)]
    ensures To64(v, 2) == [Char64(v % 64), Char64(v / 64 % 64)]
  {
    var a, b, c := v / 64, v / 64 / 64, v / 64 / 64 / 64;
    assert To64(c, 1) == [ITOA64[c % 64]] + To64(c / 64, 0);
    assert To64(b, 2) == [ITOA64[b % 64]] + To64(c, 1);
    assert To64(a, 3) == [ITOA64[a % 64]] + To64(b, 2);
    assert To64(v, 4) == [ITOA64[v % 64]] + To64(a, 3);
    assert To64(a, 1) == [ITOA64[a % 64]] + To64(b, 0);
    assert To64(v, 2) == [ITOA64[v % 64]] + To64(a, 1);
  }

  // Reading four digits undoes printing a 24-bit word.
  lemma WordPrinted(v: nat)
    requires v < 16777216
    ensures Word(To64(v, 4)) == v && forall i :: 0 <= i < 4 ==> IsDigit64(To64(v, 4)[i])
  {
    hide To64, IsDigit64, Value64, Char64;
    To64Digits(v);
    var a, b, c, d := v % 64, v / 64 % 64, v / 64 / 64 % 64, v / 64 / 64 / 64 % 64;
    ValueOfDigit(a);
    ValueOfDigit(b);
    ValueOfDigit(c);
    ValueOfDigit(d);
    DigitsMakeUp(v);
  }

  lemma DigitsMakeUp(v: nat)
    requires v < 16777216
    ensures v == v % 64 + 64 * (v / 64 % 64) + 4096 * (v / 64 / 64 % 64) + 262144 * (v / 64 / 64 / 64 % 64)
  {
    var a, b, c := v / 64, v / 64 / 64, v / 64 / 64 / 64;
    assert v == 64 * a + v % 64 && a == 64 * b + a % 64 && b == 64 * c + b % 64;
  }

  lemma BytePrinted(v: nat)
    requires v < 256
    ensures var s := To64(v, 2);
            Value64(s[0]) + 64 * Value64(s[1]) == v && IsDigit64(s[0]) && IsDigit64(s[1])
  {
    hide To64, IsDigit64, Value64, Char64;
    To64Digits(v);
    ValueOfDigit(v % 64);
    ValueOfDigit(v / 64 % 64);
  }

  // The three bytes of a group, taken out by their weights.
  lemma GroupBytes(a: byte, b: byte, c: byte)
    ensures var w := Group(a, b, c);
            w < 16777216 && High(w) == a && Middle(w) == b && Lowest(w) == c
  {
    var x, y, z := a as nat, b as nat, c as nat;
    var w := Group(a, b, c);
    assert w == 256 * (256 * x + y) + z;
    assert w / 256 == 256 * x + y && w % 256 == z;
    assert w == 65536 * x + (256 * y + z);
    assert w / 65536 == x;
  }

  lemma GroupRead(a: byte, b: byte, c: byte)
    ensures var s := To64(Group(a, b, c), 4);
            && High(Word(s)) == a && Middle(Word(s)) == b && Lowest(Word(s)) == c
            && forall i :: 0 <= i < 4 ==> IsDigit64(s[i])
  {
    hide To64, Group, High, Middle, Lowest, Word, IsDigit64;
    GroupBytes(a, b, c);
    WordPrinted(Group(a, b, c));
  }

  /** Reading undoes printing, for every digest. */
  lemma UnprintLayout(d: Digest)
    ensures IsTail(Layout(d)) && Unprint(Layout(d)) == d
  {
    hide Layout, To64, Group, High, Middle, Lowest, Word, IsDigit64, Value64;
    var s := Layout(d);
    LayoutParts(d);
    GroupRead(d[0], d[6], d[12]);
    GroupRead(d[1], d[7], d[13]);
    GroupRead(d[2], d[8], d[14]);
    GroupRead(d[3], d[9], d[15]);
    GroupRead(d[4], d[10], d[5]);
    BytePrinted(d[11] as nat);
    LowestByte(d[11]);
    assert s[20..][0] == s[20] && s[20..][1] == s[21];
    assert s == s[..4] + s[4..8] + s[8..12] + s[12..16] + s[16..20] + s[20..];
    var u := Unprint(s);
    assert forall i :: 0 <= i < 16 ==> u[i] == d[i];
  }

  lemma LowestByte(b: byte)
    ensures Lowest(b as nat) == b
  {
  }

  lemma FourDigits(a: nat, b: nat, c: nat, d: nat)
    requires a < 64 && b < 64 && c < 64 && d < 64
    ensures var w := a + 64 * b + 4096 * c + 262144 * d;
            w % 64 == a && w / 64 % 64 == b && w / 64 / 64 % 64 == c && w / 64 / 64 / 64 % 64 == d
  {
    var w := a + 64 * b + 4096 * c + 262144 * d;
    assert w == 64 * (b + 64 * c + 4096 * d) + a;
    assert w / 64 == b + 64 * c + 4096 * d;
    assert w / 64 / 64 == c + 64 * d;
    assert w / 64 / 64 / 64 == d;
  }

  lemma WordDigits(s: string)
    requires |s| == 4 && forall i :: 0 <= i < 4 ==> IsDigit64(s[i])
    ensures To64(Word(s), 4) == s
  {
    hide To64, IsDigit64, Value64, Char64;
    To64Digits(Word(s));
    FourDigits(Value64(s[0]), Value64(s[1]), Value64(s[2]), Value64(s[3]));
    DigitOfValue(s[0]);
    DigitOfValue(s[1]);
    DigitOfValue(s[2]);
    DigitOfValue(s[3]);
  }

  lemma ByteDigits(s: string)
    requires |s| == 2 && IsDigit64(s[0]) && IsDigit64(s[1])
    ensures To64(Value64(s[0]) + 64 * Value64(s[1]), 2) == s
  {
    hide To64, IsDigit64, Value64, Char64;
    To64Digits(Value64(s[0]) + 64 * Value64(s[1]));
    FourDigits(Value64(s[0]), Value64(s[1]), 0, 0);
    DigitOfValue(s[0]);
    DigitOfValue(s[1]);
  }

  lemma GroupOfBytes(w: nat)
    requires w < 16777216
    ensures Group(High(w), Middle(w), Lowest(w)) == w
  {
  }

  lemma GroupPrinted(s: string)
    requires |s| == 4 && forall i :: 0 <= i < 4 ==> IsDigit64(s[i])
    ensures To64(Group(High(Word(s)), Middle(Word(s)), Lowest(Word(s))), 4) == s
  {
    hide To64, Group, High, Middle, Lowest, Word, IsDigit64;
    WordDigits(s);
    GroupOfBytes(Word(s));
  }

  /** And printing undoes reading, for every tail. */
  lemma LayoutUnprint(s: string)
    requires IsTail(s)
    ensures Layout(Unprint(s)) == s
  {
    hide Layout, To64, Group, High, Middle, Lowest, Word, IsDigit64, Value64;
    GroupPrinted(s[..4]);
    GroupPrinted(s[4..8]);
    GroupPrinted(s[8..12]);
    GroupPrinted(s[12..16]);
    GroupPrinted(s[16..20]);
    ByteDigits(s[20..]);
    assert s[20..][0] == s[20] && s[20..][1] == s[21];
    SmallByte(Value64(s[20]) + 64 * Value64(s[21]));
    LayoutParts(Unprint(s));
    var t := Layout(Unprint(s));
    assert s == s[..4] + s[4..8] + s[8..12] + s[12..16] + s[16..20] + s[20..];
    assert t == t[..4] + t[4..8] + t[8..12] + t[12..16] + t[16..20] + t[20..];
  }

  lemma SmallByte(n: nat)
    requires n < 256
    ensures Lowest(n) as nat == n
  {
  }

  /** What `md5Crypt` prints, character for character: the magic, the cut salt, and 22 characters for the digest. */
  lemma PrintedDecodes(c: Crypto, password: string, salt: string)
    ensures exists s, tail :: CutsTo(salt, s) && IsTail(tail)
                              && Md5Crypt(c, password, salt) == "$apr1$" + s + "$" + tail
                              && Unprint(tail) == c.digest(password, s)
  {
    hide Layout, Unprint, IsTail;
    var s := UsedSalt(salt);
    UnprintLayout(c.digest(password, s));
    assert CutsTo(salt, s);
  }

  // The canonical apr1 entry of a digest under a salt.
  function Entry(salt: string, d: Digest): string {
    MAGIC + salt + "$" + Layout(d)
  }

  predicate GoodSalt(salt: string) {
    |salt| <= 8 && '$' !in salt
  }

  lemma UsedSaltGood(salt: string)
    ensures GoodSalt(UsedSalt(salt))
    ensures GoodSalt(salt) ==> UsedSalt(salt) == salt
  {
    var i := Index(salt, '$');
    if GoodSalt(salt) {
      assert i == |salt|;
    }
  }

  /** Splitting a canonical entry finds its salt again. */
  lemma EntrySplits(salt: string, d: Digest)
    requires GoodSalt(salt)
    ensures Split(Entry(salt, d), '$') == ["", "apr1", salt, Layout(d)]
  {
    hide Layout, Split;
    LayoutNoDollar(d);
    JoinFour("", "apr1", salt, Layout(d));
    assert "" + "$" + "apr1" + "$" == MAGIC;
    assert Join(["", "apr1", salt, Layout(d)], '$') == Entry(salt, d);
    SplitJoin(["", "apr1", salt, Layout(d)], '$');
  }

  lemma JoinFour(a: string, b: string, c: string, d: string)
    ensures Join([a, b, c, d], '$') == a + "$" + b + "$" + c + "$" + d
  {
    assert [a, b, c, d][1..] == [b, c, d] && [b, c, d][1..] == [c, d] && [c, d][1..] == [d];
    assert Join([d], '$') == d;
    assert Join([c, d], '$') == c + "$" + d;
    assert Join([b, c, d], '$') == b + "$" + c + "$" + d;
  }

  /** An entry, checked against any password, is accepted exactly on equal digests. */
  lemma AcceptsExactlyEqualDigests(c: Crypto, plain: string, salt: string, d: Digest)
    requires GoodSalt(salt)
    ensures VerifyPassword(c, plain, Entry(salt, d)) <==> c.digest(plain, salt) == d
  {
    hide Layout, Split;
    EntrySplits(salt, d);
    UsedSaltGood(salt);
    var e := Entry(salt, d);
    assert e[..6] == MAGIC && MAGIC <= e && e[0] == '$' && e[1] == 'a';
    var printed := Entry(salt, c.digest(plain, salt));
    assert Apr1Hash(c, plain, e) == printed;
    var n := |MAGIC + salt + "$"|;
    assert printed[n..] == Layout(c.digest(plain, salt)) && e[n..] == Layout(d);
    if printed == e {
      LayoutInjective(c.digest(plain, salt), d);
    }
  }

  /** The other formats: bcrypt under any of its three names, SHA1 by its printed form, and nothing else. */
  lemma OtherFormats(c: Crypto, plain: string, rest: string)
    requires rest == "" || rest[0] != '$'
    ensures VerifyPassword(c, plain, "$2y$" + rest) == c.bcryptMatches("$2a$" + rest, plain)
    ensures VerifyPassword(c, plain, "$2a$" + rest) == c.bcryptMatches("$2a$" + rest, plain)
    ensures VerifyPassword(c, plain, "$2b$" + rest) == c.bcryptMatches("$2a$" + rest, plain)
    ensures VerifyPassword(c, plain, "{SHA}" + rest) <==> rest == c.sha1Base64(plain)
    ensures !("{SHA}" <= rest) ==> !VerifyPassword(c, plain, rest)
  {
    hide Apr1Hash;
    BcryptName(c, plain, "$2y$", rest);
    BcryptName(c, plain, "$2a$", rest);
    BcryptName(c, plain, "$2b$", rest);
    Sha1Name(c, plain, rest);
  }

  lemma BcryptName(c: Crypto, plain: string, name: string, rest: string)
    requires name == "$2y$" || name == "$2a$" || name == "$2b$"
    requires rest == "" || rest[0] != '$'
    ensures VerifyPassword(c, plain, name + rest) == c.bcryptMatches("$2a$" + rest, plain)
  {
    hide Apr1Hash;
    var h := name + rest;
    assert h[..4] == name && h[4..] == rest && h[2] == name[2];
  }

  lemma Sha1Name(c: Crypto, plain: string, rest: string)
    ensures VerifyPassword(c, plain, "{SHA}" + rest) <==> rest == c.sha1Base64(plain)
  {
    hide Apr1Hash;
    var h := "{SHA}" + rest;
    assert h[0] == '{' && h[5..] == rest && ("{SHA}" + c.sha1Base64(plain))[5..] == c.sha1Base64(plain);
  }

  /** What `md5Crypt` prints for a password, under any salt at all, verifies for that password. */
  lemma PrintedVerifies(c: Crypto, password: string, salt: string)
    ensures VerifyPassword(c, password, Md5Crypt(c, password, salt))
  {
    UsedSaltGood(salt);
    AcceptsExactlyEqualDigests(c, password, UsedSalt(salt), c.digest(password, UsedSalt(salt)));
  }

  /**
   A stored string with the apr1 prefix is accepted exactly if it is the prefix, a
   salt, a '$' and 22 characters that stand for the password's digest under that salt.
   */
  lemma AcceptedAreCanonical(c: Crypto, plain: string, hashed: string)
    requires "$apr1$" <= hashed
    ensures VerifyPassword(c, plain, hashed) <==>
            exists salt, tail :: GoodSalt(salt) && IsTail(tail) && hashed == "$apr1$" + salt + "$" + tail
                                 && Unprint(tail) == c.digest(plain, salt)
  {
    hide Layout, Unprint;
    assert hashed[0] == '$' && hashed[1] == 'a';
    if VerifyPassword(c, plain, hashed) {
      var salt := UsedSalt(Split(hashed, '$')[2]);
      UsedSaltGood(Split(hashed, '$')[2]);
      assert hashed == Entry(salt, c.digest(plain, salt));
      UnprintLayout(c.digest(plain, salt));
    }
    if salt, tail :| GoodSalt(salt) && IsTail(tail) && hashed == "$apr1$" + salt + "$" + tail
                     && Unprint(tail) == c.digest(plain, salt) {
      LayoutUnprint(tail);
      assert hashed == Entry(salt, c.digest(plain, salt));
      AcceptsExactlyEqualDigests(c, plain, salt, c.digest(plain, salt));
    }
  }
}

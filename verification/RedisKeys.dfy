/**
 Bucket key names (internal/ratelimiter/redis-token-bucket.go): the prefix, then client
 and resource in the URL-safe base64 of section 5 of RFC 4648, without padding (section 3.2).
 */
module RedisKeys {
  import opened Limits

  const DEFAULT_PREFIX := "rate_limit"
  const DEFAULT_STREAM := "rate_limit:approved_requests"

  /** The URL-safe base64 alphabet. */
  function Symbol(sextet: int): char
    requires 0 <= sextet < 64
  {
    if sextet < 26 then ('A' as int + sextet) as char
    else if sextet < 52 then ('a' as int + sextet - 26) as char
    else if sextet < 62 then ('0' as int + sextet - 52) as char
    else if sextet == 62 then '-'
    else '_'
  }

  lemma SymbolInjective(a: int, b: int)
    requires 0 <= a < 64 && 0 <= b < 64 && Symbol(a) == Symbol(b)
    ensures a == b
  {
  }

  const UPPER: string := "ABCDEFGHIJKLMNOPQRSTUVWXYZ"
  const LOWER: string := "abcdefghijklmnopqrstuvwxyz"
  const OTHER: string := "0123456789-_"

  /** Table 2 of RFC 4648. */
  const ALPHABET: string := UPPER + LOWER + OTHER

  lemma UpperCase(i: int)
    requires 0 <= i < 26
    ensures UPPER[i] as int == 'A' as int + i
  {
  }

  lemma LowerCase(i: int)
    requires 0 <= i < 26
    ensures LOWER[i] as int == 'a' as int + i
  {
  }

  lemma OtherSymbol(i: int)
    requires 0 <= i < 12
    ensures OTHER[i] == Symbol(i + 52)
  {
  }

  lemma SymbolInAlphabet(sextet: int)
    requires 0 <= sextet < 64
    ensures |ALPHABET| == 64 && Symbol(sextet) == ALPHABET[sextet]
  {
    if sextet < 26 {
      UpperCase(sextet);
    } else if sextet < 52 {
      LowerCase(sextet - 26);
    } else {
      OtherSymbol(sextet - 52);
    }
  }

  function Encode(bytes: Text): string {
    if |bytes| == 0 then ""
    else
      var a := bytes[0] as int;
      if |bytes| == 1 then
        [Symbol(a / 4), Symbol(a % 4 * 16)]
      else
        var b := bytes[1] as int;
        if |bytes| == 2 then
          [Symbol(a / 4), Symbol(a % 4 * 16 + b / 16), Symbol(b % 16 * 4)]
        else
          var c := bytes[2] as int;
          [Symbol(a / 4), Symbol(a % 4 * 16 + b / 16), Symbol(b % 16 * 4 + c / 64), Symbol(c % 64)]
          + Encode(bytes[3..])
  }

  function RedisKey(prefix: string, key: Key): string {
    prefix + ":" + Encode(key.clientID) + ":" + Encode(key.resource)
  }

  /** The first three bytes can be read back from the first four symbols. */
  lemma GroupInjective(a: int, b: int, c: int, x: int, y: int, z: int)
    requires 0 <= a < 256 && 0 <= b < 256 && 0 <= c < 256
    requires 0 <= x < 256 && 0 <= y < 256 && 0 <= z < 256
    requires Symbol(a / 4) == Symbol(x / 4)
    requires Symbol(a % 4 * 16 + b / 16) == Symbol(x % 4 * 16 + y / 16)
    requires Symbol(b % 16 * 4 + c / 64) == Symbol(y % 16 * 4 + z / 64)
    requires Symbol(c % 64) == Symbol(z % 64)
    ensures a == x && b == y && c == z
  {
    SymbolInjective(a / 4, x / 4);
    SymbolInjective(a % 4 * 16 + b / 16, x % 4 * 16 + y / 16);
    SymbolInjective(b % 16 * 4 + c / 64, y % 16 * 4 + z / 64);
    SymbolInjective(c % 64, z % 64);
  }

  lemma EncodeLength(bytes: Text)
    ensures |bytes| >= 3 ==> |Encode(bytes)| >= 4
    ensures |bytes| < 3 ==> |Encode(bytes)| == [0, 2, 3][|bytes|]
  {
  }

  lemma {:induction false} ShortInjective(s: Text, t: Text)
    requires Encode(s) == Encode(t) && |s| == |t| < 3
    ensures s == t
  {
    var e, f := Encode(s), Encode(t);
    if |s| == 2 {
      assert e[0] == f[0] && e[1] == f[1] && e[2] == f[2];
      GroupInjective(s[0] as int, s[1] as int, 0, t[0] as int, t[1] as int, 0);
    } else if |s| == 1 {
      assert e[0] == f[0] && e[1] == f[1];
      GroupInjective(s[0] as int, 0, 0, t[0] as int, 0, 0);
    }
  }

  lemma {:induction false} FirstGroup(s: Text, t: Text)
    requires Encode(s) == Encode(t) && |s| >= 3 && |t| >= 3
    ensures s[0] == t[0] && s[1] == t[1] && s[2] == t[2]
    ensures Encode(s[3..]) == Encode(t[3..])
  {
    var e, f := Encode(s), Encode(t);
    assert e[0] == f[0] && e[1] == f[1] && e[2] == f[2] && e[3] == f[3];
    GroupInjective(s[0] as int, s[1] as int, s[2] as int, t[0] as int, t[1] as int, t[2] as int);
    assert e[4..] == Encode(s[3..]) && f[4..] == Encode(t[3..]);
  }

  /** Different byte strings have different encodings. */
  lemma {:induction false} EncodeInjective(s: Text, t: Text)
    requires Encode(s) == Encode(t)
    ensures s == t
  {
    EncodeLength(s);
    EncodeLength(t);
    if |s| >= 3 {
      FirstGroup(s, t);
      EncodeInjective(s[3..], t[3..]);
      assert s == [s[0], s[1], s[2]] + s[3..] && t == [t[0], t[1], t[2]] + t[3..];
    } else {
      ShortInjective(s, t);
    }
  }

  /** The `g`-th group of three octets; the last may be shorter. */
  function Group(bytes: Text, g: nat): seq<int>
    requires 3 * g < |bytes|
  {
    var size := if |bytes| - 3 * g < 3 then |bytes| - 3 * g else 3;
    seq(size, i requires 0 <= i < size => bytes[3 * g + i] as int)
  }

  /** The number that octets or sextets spell, most significant first. */
  function BigEndian(digits: seq<int>, base: int): int {
    if digits == [] then 0
    else BigEndian(digits[..|digits| - 1], base) * base + digits[|digits| - 1]
  }

  /** Zero bits at the end fill the last sextet of a short group. */
  function Fill(size: int): int {
    if size == 1 then 16 else if size == 2 then 4 else 1
  }

  /** From position `at` on, the text spells these sextets over the alphabet. */
  predicate Spells(text: string, at: nat, sextets: seq<int>) {
    && at + |sextets| <= |text| && |ALPHABET| == 64
    && forall i :: 0 <= i < |sextets| ==> 0 <= sextets[i] < 64 && text[at + i] == ALPHABET[sextets[i]]
  }

  /**
   The encoding as the standard defines it: each group of up to three octets becomes one
   symbol more than it has octets, and over the alphabet they spell the same number, filled up
   with zero bits; and nothing else is in the text.
   */
  lemma {:induction false} EncodeSpellsGroup(bytes: Text, g: nat) returns (sextets: seq<int>)
    requires 3 * g < |bytes|
    ensures |sextets| == |Group(bytes, g)| + 1 && Spells(Encode(bytes), 4 * g, sextets)
    ensures BigEndian(sextets, 64) == BigEndian(Group(bytes, g), 256) * Fill(|Group(bytes, g)|)
    ensures |Encode(bytes)| == (8 * |bytes| + 5) / 6
  {
    hide BigEndian, Encode, Symbol, Fill;
    EncodeSize(bytes);
    if g > 0 {
      sextets := EncodeSpellsGroup(bytes[3..], g - 1);
      assert Group(bytes[3..], g - 1) == Group(bytes, g);
      EncodeTail(bytes);
      SpellsLater(Encode(bytes), 4 * g, sextets);
    } else {
      sextets := FirstGroupSpells(bytes);
    }
  }

  lemma EncodeTail(bytes: Text)
    requires |bytes| >= 3
    ensures |Encode(bytes)| >= 4 && Encode(bytes)[4..] == Encode(bytes[3..])
  {
    hide Symbol;
  }

  lemma SpellsLater(text: string, at: nat, sextets: seq<int>)
    requires 4 <= at && 4 <= |text| && Spells(text[4..], at - 4, sextets)
    ensures Spells(text, at, sextets)
  {
    forall i | 0 <= i < |sextets| ensures text[at + i] == ALPHABET[sextets[i]] {
      assert text[4..][at - 4 + i] == text[at + i];
    }
  }

  lemma {:induction false} EncodeSize(bytes: Text)
    ensures |Encode(bytes)| == (8 * |bytes| + 5) / 6
  {
    if |bytes| >= 3 {
      EncodeSize(bytes[3..]);
    }
  }

  lemma {:induction false} FirstGroupSpells(bytes: Text) returns (sextets: seq<int>)
    requires |bytes| > 0
    ensures |sextets| == |Group(bytes, 0)| + 1 && Spells(Encode(bytes), 0, sextets)
    ensures BigEndian(sextets, 64) == BigEndian(Group(bytes, 0), 256) * Fill(|Group(bytes, 0)|)
  {
    var a := bytes[0] as int;
    var b := if |bytes| > 1 then bytes[1] as int else 0;
    var c := if |bytes| > 2 then bytes[2] as int else 0;
    SextetsInRange(a, b, c);
    hide Symbol, BigEndian;
    if |bytes| == 1 {
      sextets := [a / 4, a % 4 * 16];
      assert Group(bytes, 0) == [a];
      GroupNumbers(a, 0, 0);
    } else if |bytes| == 2 {
      sextets := [a / 4, a % 4 * 16 + b / 16, b % 16 * 4];
      assert Group(bytes, 0) == [a, b];
      GroupNumbers(a, b, 0);
    } else {
      sextets := [a / 4, a % 4 * 16 + b / 16, b % 16 * 4 + c / 64, c % 64];
      assert Group(bytes, 0) == [a, b, c];
      GroupNumbers(a, b, c);
      assert Encode(bytes)[..4] == [Symbol(sextets[0]), Symbol(sextets[1]), Symbol(sextets[2]), Symbol(sextets[3])];
    }
    GroupSpelled(Encode(bytes), sextets);
  }

  lemma SextetsInRange(a: int, b: int, c: int)
    requires 0 <= a < 256 && 0 <= b < 256 && 0 <= c < 256
    ensures 0 <= a / 4 < 64 && 0 <= a % 4 * 16 + b / 16 < 64 && 0 <= b % 16 * 4 + c / 64 < 64 && 0 <= c % 64 < 64
  {
  }

  lemma {:induction false} GroupSpelled(text: string, sextets: seq<int>)
    requires |sextets| <= |text|
    requires forall i :: 0 <= i < |sextets| ==> 0 <= sextets[i] < 64 && text[i] == Symbol(sextets[i])
    ensures Spells(text, 0, sextets)
  {
    hide Symbol;
    SymbolInAlphabet(0);
    forall i | 0 <= i < |sextets| ensures text[i] == ALPHABET[sextets[i]] {
      SymbolInAlphabet(sextets[i]);
    }
  }

  /** The sextets of a group spell the number its octets spell. */
  lemma {:induction false} GroupNumbers(a: int, b: int, c: int)
    ensures BigEndian([a / 4, a % 4 * 16], 64) == BigEndian([a], 256) * 16
    ensures BigEndian([a / 4, a % 4 * 16 + b / 16, b % 16 * 4], 64) == BigEndian([a, b], 256) * 4
    ensures BigEndian([a / 4, a % 4 * 16 + b / 16, b % 16 * 4 + c / 64, c % 64], 64) == BigEndian([a, b, c], 256)
  {
    hide BigEndian;
    One(a, 256);
    Two(a, b, 256);
    Three(a, b, c, 256);
    Two(a / 4, a % 4 * 16, 64);
    Three(a / 4, a % 4 * 16 + b / 16, b % 16 * 4, 64);
    Four(a / 4, a % 4 * 16 + b / 16, b % 16 * 4 + c / 64, c % 64, 64);
  }

  lemma {:induction false} One(a: int, base: int)
    ensures BigEndian([a], base) == a
  {
    assert [a][..0] == [];
    assert BigEndian([], base) == 0;
  }

  lemma {:induction false} Two(a: int, b: int, base: int)
    ensures BigEndian([a, b], base) == a * base + b
  {
    assert [a, b][..1] == [a];
    One(a, base);
  }

  lemma {:induction false} Three(a: int, b: int, c: int, base: int)
    ensures BigEndian([a, b, c], base) == (a * base + b) * base + c
  {
    assert [a, b, c][..2] == [a, b];
    Two(a, b, base);
  }

  lemma {:induction false} Four(a: int, b: int, c: int, d: int, base: int)
    ensures BigEndian([a, b, c, d], base) == ((a * base + b) * base + c) * base + d
  {
    assert [a, b, c, d][..3] == [a, b, c];
    Three(a, b, c, base);
  }

  predicate NoColon(s: string) {
    forall i :: 0 <= i < |s| ==> s[i] != ':'
  }

  lemma {:induction false} EncodeHasNoColon(bytes: Text)
    ensures NoColon(Encode(bytes))
  {
    if |bytes| >= 3 {
      EncodeHasNoColon(bytes[3..]);
    }
  }

  /** A colon-free left part is determined by the joined text. */
  lemma JoinInjective(a: string, b: string, c: string, d: string)
    requires a + ":" + b == c + ":" + d && NoColon(a) && NoColon(c)
    ensures a == c && b == d
  {
    var s := a + ":" + b;
    assert s[|a|] == ':' && s[|c|] == ':';
    assert |a| == |c|;
    assert a == s[..|a|] && b == s[|a| + 1..];
    assert c == s[..|c|] && d == s[|c| + 1..];
  }

  /** Different (client, resource) pairs have different bucket keys. */
  lemma RedisKeyInjective(prefix: string, k: Key, l: Key)
    requires RedisKey(prefix, k) == RedisKey(prefix, l)
    ensures k == l
  {
    BucketPart(prefix, k);
    BucketPart(prefix, l);
    EncodeHasNoColon(k.clientID);
    EncodeHasNoColon(l.clientID);
    JoinInjective(Encode(k.clientID), Encode(k.resource), Encode(l.clientID), Encode(l.resource));
    EncodeInjective(k.clientID, l.clientID);
    EncodeInjective(k.resource, l.resource);
  }

  /** A bucket key is the prefix, a colon, the client, a colon and the resource. */
  lemma BucketPart(prefix: string, k: Key)
    ensures |RedisKey(prefix, k)| > |prefix|
    ensures RedisKey(prefix, k)[..|prefix| + 1] == prefix + ":"
    ensures RedisKey(prefix, k)[|prefix| + 1..] == Encode(k.clientID) + ":" + Encode(k.resource)
  {
    var lead := prefix + ":";
    var rest := Encode(k.clientID) + ":" + Encode(k.resource);
    assert RedisKey(prefix, k) == lead + rest;
    assert (lead + rest)[|lead|..] == rest && (lead + rest)[..|lead|] == lead;
  }

  /** A name with no second colon after the prefix is never a bucket key. */
  lemma PlainNameIsNoBucket(prefix: string, name: string, k: Key)
    requires NoColon(name)
    ensures RedisKey(prefix, k) != prefix + ":" + name
  {
    var i := |prefix| + 1 + |Encode(k.clientID)|;
    assert RedisKey(prefix, k)[i] == ':';
    var plain := prefix + ":" + name;
    assert i < |plain| ==> plain[i] == name[i - |prefix| - 1];
  }

  /** With the default names, no bucket key is the event stream. */
  lemma DefaultStreamIsNoBucket(k: Key)
    ensures RedisKey("rate_limit", k) != "rate_limit:approved_requests"
  {
    assert DEFAULT_STREAM == DEFAULT_PREFIX + ":" + "approved_requests";
    PlainNameIsNoBucket(DEFAULT_PREFIX, "approved_requests", k);
  }
}

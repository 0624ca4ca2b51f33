/** The geodat scanner: base-128 varints and the search for a record by its code. */
module Geodat {
  import opened Bytes

  const TWO63 := 0x8000_0000_0000_0000
  const TWO64 := 0x1_0000_0000_0000_0000
  const MAX_GROUPS := 10

  // ---------------------------------------------------------------- varints

  datatype Varint = Value(x: nat, rest: seq<byte>) | Short | Overflow

  /** The Protocol Buffers base-128 encoding. */
  function Encode(n: nat): seq<byte> {
    if n < 128 then [n] else [128 + n % 128] + Encode(n / 128)
  }

  /** The number that the first groups of b stand for, read from the least significant one, without a width. */
  function Groups(b: seq<byte>, limit: nat): Varint
    decreases |b|
  {
    if limit == 0 then Overflow
    else if b == [] then Short
    else if b[0] < 128 then Value(b[0], b[1..])
    else
      var r := Groups(b[1..], limit - 1);
      if r.Value? then Value(b[0] - 128 + 128 * r.x, r.rest) else r
  }

  /** The same in 64 bits. */
  function Decoded(b: seq<byte>): Varint {
    var r := Groups(b, MAX_GROUPS);
    if r.Value? then Value(r.x % TWO64, r.rest) else r
  }

  /** Groups read so far, worth x below the weight p, in front of the others. */
  function Combine(x: nat, p: nat, r: Varint): Varint {
    if r.Value? then Value(x + p * r.x, r.rest) else r
  }

  lemma CombineStep(x: nat, p: nat, b: seq<byte>, limit: nat)
    requires limit > 0 && b != [] && b[0] >= 128
    ensures Combine(x, p, Groups(b, limit)) == Combine(x + (b[0] - 128) * p, 128 * p, Groups(b[1..], limit - 1))
  {
    var r := Groups(b[1..], limit - 1);
    if r.Value? {
      var g: int := b[0] - 128;
      assert p * (g + 128 * r.x) == g * p + (128 * p) * r.x;
    }
  }

  /** Weights of the groups: 128 to the k-th power, which is 2 to the 7k. */
  function Weight(k: nat): (p: nat)
    ensures p > 0
  {
    if k == 0 then 1 else 128 * Weight(k - 1)
  }

  lemma WeightNine()
    ensures Weight(9) == TWO63
  {
    assert Weight(1) == 128 && Weight(2) == 128 * 128 && Weight(3) == 128 * 128 * 128;
    assert Weight(6) == 128 * 128 * 128 * 128 * 128 * 128;
    assert Weight(9) == 128 * Weight(8) == 128 * (128 * Weight(7)) == 128 * (128 * (128 * Weight(6)));
  }

  lemma {:induction false} WeightGrows(j: nat, k: nat)
    requires j <= k
    ensures Weight(j) <= Weight(k)
    decreases k
  {
    if j < k {
      WeightGrows(j, k - 1);
    }
  }

  lemma BelowNext(x: nat, group: nat, p: nat)
    requires x < p && group < 128
    ensures 0 <= group * p && x + group * p < 128 * p
  {
    assert (127 - group) * p >= 0;
    assert (127 - group) * p == 127 * p - group * p;
  }

  /** One more group still fits below the next weight, and into 64 bits. */
  lemma GroupFits(x: nat, group: nat, k: nat)
    requires x < Weight(k) && group < 128 && k < 9
    ensures (x + group * Weight(k)) % TWO64 == x + group * Weight(k) < Weight(k + 1)
  {
    var p := Weight(k);
    BelowNext(x, group, p);
    WeightNine();
    WeightGrows(k + 1, 9);
    SmallMod(x + group * p);
  }

  lemma SmallMod(y: nat)
    requires y < TWO64
    ensures y % TWO64 == y
  {
  }

  /** Where the loop stands: k groups are in x, or ten groups have gone by without an end. */
  ghost predicate Reading(b: seq<byte>, rest: seq<byte>, x: nat, k: nat) {
    if k < MAX_GROUPS then x < Weight(k) && Groups(b, MAX_GROUPS) == Combine(x, Weight(k), Groups(rest, MAX_GROUPS - k))
    else Groups(b, MAX_GROUPS) == Overflow
  }

  lemma ReadGroup(b: seq<byte>, rest: seq<byte>, x: nat, k: nat)
    requires k < MAX_GROUPS && Reading(b, rest, x, k) && rest != [] && rest[0] >= 128
    ensures Reading(b, rest[1..], (x + (rest[0] - 128) * Weight(k)) % TWO64, k + 1)
  {
    if k < 9 {
      ReadMiddle(b, rest, x, k, x + (rest[0] - 128) * Weight(k));
      GroupFits(x, rest[0] - 128, k);
    } else {
      TooLong(x, Weight(k), rest);
    }
  }

  lemma ReadMiddle(b: seq<byte>, rest: seq<byte>, x: nat, k: nat, y: int)
    requires k < 9 && Reading(b, rest, x, k) && rest != [] && rest[0] >= 128 && y == x + (rest[0] - 128) * Weight(k)
    ensures 0 <= y < Weight(k + 1) && Reading(b, rest[1..], y, k + 1)
  {
    CombineStep(x, Weight(k), rest, MAX_GROUPS - k);
    GroupFits(x, rest[0] - 128, k);
    assert Weight(k + 1) == 128 * Weight(k);
  }

  lemma TooLong(x: nat, p: nat, rest: seq<byte>)
    requires rest != [] && rest[0] >= 128
    ensures Combine(x, p, Groups(rest, 1)) == Overflow
  {
  }

  lemma ReadLast(b: seq<byte>, rest: seq<byte>, x: nat, k: nat)
    requires k < MAX_GROUPS && Reading(b, rest, x, k) && (rest == [] || rest[0] < 128)
    ensures rest == [] ==> Decoded(b) == Short
    ensures rest != [] ==> Decoded(b) == Value((x + rest[0] * Weight(k)) % TWO64, rest[1..])
  {
    if rest != [] {
      var g: int, p := rest[0], Weight(k);
      assert Groups(rest, MAX_GROUPS - k) == Value(g, rest[1..]);
      assert p * g == g * p;
    }
  }

  /**
    * decodeVarint.  The groups occupy disjoint bits, so or-ing a shifted group is adding it; in the tenth group the
    * shift drops everything above 64 bits.
    */
  method DecodeVarint(b: seq<byte>) returns (r: Varint)
    ensures r == Decoded(b)
  {
    var x: nat, rest, shift := 0, b, 0;
    var p := 1;
    ghost var k := 0;
    while shift < 64
      invariant 0 <= k <= MAX_GROUPS && shift == 7 * k && p == Weight(k) && Reading(b, rest, x, k)
    {
      if rest == [] || rest[0] < 128 {
        ReadLast(b, rest, x, k);
      } else {
        ReadGroup(b, rest, x, k);
      }
      if rest == [] {
        return Short;
      }
      var g: int := rest[0];
      var group := if g < 128 then g else g - 128;
      x := (x + group * p) % TWO64;
      rest := rest[1..];
      if g < 128 {
        return Value(x, rest);
      }
      shift, k, p := shift + 7, k + 1, 128 * p;
    }
    r := Overflow;
  }

  lemma {:induction false} GroupsOfEncoding(n: nat, rest: seq<byte>, limit: nat)
    requires |Encode(n)| <= limit
    ensures Groups(Encode(n) + rest, limit) == Value(n, rest)
  {
    var b := Encode(n) + rest;
    if n < 128 {
      assert b[1..] == rest;
    } else {
      assert b[1..] == Encode(n / 128) + rest;
      GroupsOfEncoding(n / 128, rest, limit - 1);
    }
  }

  lemma {:induction false} EncodingLength(n: nat, k: nat)
    requires n < Weight(k) && k > 0
    ensures |Encode(n)| <= k
  {
    if n >= 128 {
      assert Weight(1) == 128;
      assert n / 128 < Weight(k - 1);
      EncodingLength(n / 128, k - 1);
    }
  }

  /** Every uint64 is read back from its encoding, and nothing behind it is touched. */
  lemma VarintRoundTrip(n: nat, rest: seq<byte>)
    requires n < TWO64
    ensures Decoded(Encode(n) + rest) == Value(n, rest)
  {
    TenGroupsSuffice(n);
    SmallMod(n);
    GroupsOfEncoding(n, rest, MAX_GROUPS);
  }

  lemma TenGroupsSuffice(n: nat)
    requires n < TWO64
    ensures |Encode(n)| <= MAX_GROUPS
  {
    WeightNine();
    assert Weight(10) == 128 * Weight(9);
    EncodingLength(n, 10);
  }

  // ---------------------------------------------------------------- the search

  datatype Found = Body(bytes: seq<byte>) | Present | NotFound | Malformed

  /** Whether the body begins with a field that holds exactly the code. */
  predicate Matches(body: seq<byte>, code: seq<byte>) {
    |body| >= 2 + |code| && body[1] == |code| && body[2..2 + |code|] == code
  }

  /**
    * find as a function of the bytes of the file.  NotFound is the end of the file in front of a record; every other
    * failure is Malformed.  Without readBody only as much as the code field has to be there.
    */
  function Search(b: seq<byte>, code: seq<byte>, readBody: bool): Found
    requires code != []
    decreases |b|
  {
    if b == [] then NotFound
    else
      var v := Decoded(b[1..]);
      if !v.Value? || !(0 < v.x < TWO63) then Malformed
      else
        var rest := v.rest;
        if |rest| < Min(v.x, 2 + |code|) then Malformed
        else if v.x >= 2 + |code| && Matches(rest[..2 + |code|], code) && !readBody then Present
        else if |rest| < v.x then Malformed
        else if Matches(rest[..v.x], code) then Body(rest[..v.x])
        else DecodedShrinks(b[1..]); Search(rest[v.x..], code, readBody)
  }

  lemma {:induction false} GroupsShrink(b: seq<byte>, limit: nat)
    ensures Groups(b, limit).Value? ==> |Groups(b, limit).rest| < |b|
    decreases limit
  {
    if limit > 0 && b != [] {
      GroupsShrink(b[1..], limit - 1);
    }
  }

  lemma DecodedShrinks(b: seq<byte>)
    ensures Decoded(b).Value? ==> |Decoded(b).rest| < |b|
  {
    GroupsShrink(b, MAX_GROUPS);
  }

  lemma SameCode(s: seq<byte>, a: nat, b: nat, need: nat)
    requires 2 <= need <= a <= |s| && need <= b <= |s|
    ensures s[..a][2..need] == s[..b][2..need] && s[..a][1] == s[..b][1]
  {
    assert s[..a][2..need] == s[2..need];
  }

  /** find: record after record, comparing a prefix and discarding what does not match. */
  method Find(file: seq<byte>, code: seq<byte>, readBody: bool) returns (r: Found)
    ensures code == [] ==> r == Malformed
    ensures code != [] ==> r == Search(file, code, readBody)
  {
    if code == [] {
      return Malformed;
    }
    var rest := file;
    var need := 2 + |code|;
    while true
      invariant Search(file, code, readBody) == Search(rest, code, readBody)
      decreases |rest|
    {
      if rest == [] {
        return NotFound;
      }
      DecodedShrinks(rest[1..]);
      var v := DecodeVarint(rest[1..]);
      if !v.Value? {
        return Malformed;
      }
      var bodyL := if v.x < TWO63 then v.x else v.x - TWO64;
      if bodyL <= 0 {
        return Malformed;
      }
      var prefixL := Min(bodyL, need);
      if |v.rest| < prefixL {
        return Malformed;
      }
      var prefix := v.rest[..prefixL];
      var matches := false;
      if bodyL >= need {
        if prefix[1] == |code| && prefix[2..need] == code {
          if !readBody {
            return Present;
          }
          matches := true;
        }
      }
      if |v.rest| >= bodyL >= need {
        SameCode(v.rest, bodyL, prefixL, need);
      }
      if |v.rest| < bodyL {
        return Malformed;
      }
      if matches {
        return Body(v.rest[..bodyL]);
      }
      rest := v.rest[bodyL..];
    }
  }

  /** A record: a tag, and a body of a field tag, a one-byte length, the code, and whatever follows. */
  datatype Record = Record(tag: byte, field: byte, code: seq<byte>, payload: seq<byte>)

  predicate WellFormed(r: Record) {
    1 <= |r.code| <= 127 && |RecordBody(r)| < TWO63
  }

  function RecordBody(r: Record): seq<byte> {
    [r.field, |r.code| % 256] + r.code + r.payload
  }

  function FileBytes(rs: seq<Record>): seq<byte> {
    if rs == [] then [] else [rs[0].tag] + Encode(|RecordBody(rs[0])|) + RecordBody(rs[0]) + FileBytes(rs[1..])
  }

  /** The first record with the code, if any. */
  function FirstWith(rs: seq<Record>, code: seq<byte>): (r: Option<Record>)
    ensures r.None? <==> forall x <- rs :: x.code != code
  {
    if rs == [] then None else if rs[0].code == code then Some(rs[0]) else FirstWith(rs[1..], code)
  }

  lemma MatchesItsCode(r: Record, code: seq<byte>)
    requires WellFormed(r) && code != []
    ensures Matches(RecordBody(r), code) <==> r.code == code
  {
    var body := RecordBody(r);
    if |code| == |r.code| {
      assert body[2..2 + |code|] == r.code;
    }
  }

  /**
    * On a well-formed file the search returns the body of the first record with exactly the code, and fails exactly if
    * there is none; the check without reading the body agrees.
    */
  lemma {:induction false} SearchFindsFirst(rs: seq<Record>, code: seq<byte>)
    requires code != [] && forall r <- rs :: WellFormed(r)
    ensures var first := FirstWith(rs, code);
            && Search(FileBytes(rs), code, true) == (if first.Some? then Body(RecordBody(first.value)) else NotFound)
            && Search(FileBytes(rs), code, false) == (if first.Some? then Present else NotFound)
    decreases |rs|
  {
    if rs != [] {
      var body, more := RecordBody(rs[0]), FileBytes(rs[1..]);
      FirstRecord(rs[0], more);
      MatchesItsCode(rs[0], code);
      SearchFindsFirst(rs[1..], code);
      var rest := body + more;
      assert rest[..|body|] == body && rest[|body|..] == more;
      if |body| >= 2 + |code| {
        assert rest[..2 + |code|] == body[..2 + |code|];
        assert body[..2 + |code|][2..] == body[2..2 + |code|];
        assert Matches(rest[..2 + |code|], code) <==> Matches(body, code);
      }
    }
  }

  lemma FirstRecord(r: Record, more: seq<byte>)
    requires WellFormed(r)
    ensures var b := [r.tag] + Encode(|RecordBody(r)|) + RecordBody(r) + more;
            Decoded(b[1..]) == Value(|RecordBody(r)|, RecordBody(r) + more)
  {
    var body := RecordBody(r);
    var b := [r.tag] + Encode(|body|) + body + more;
    assert b[1..] == Encode(|body|) + (body + more);
    VarintRoundTrip(|body|, body + more);
  }

  /** In terms of positions: the search returns the record that has the code and no earlier one with it. */
  lemma SearchFindsIndex(rs: seq<Record>, code: seq<byte>, i: nat)
    requires code != [] && (forall r <- rs :: WellFormed(r))
    requires i < |rs| && rs[i].code == code && forall j :: 0 <= j < i ==> rs[j].code != code
    ensures Search(FileBytes(rs), code, true) == Body(RecordBody(rs[i]))
    ensures Search(FileBytes(rs), code, false) == Present
  {
    SearchFindsFirst(rs, code);
    FirstIsFirst(rs, code, i);
  }

  lemma {:induction false} FirstIsFirst(rs: seq<Record>, code: seq<byte>, i: nat)
    requires i < |rs| && rs[i].code == code && forall j :: 0 <= j < i ==> rs[j].code != code
    ensures FirstWith(rs, code) == Some(rs[i])
  {
    if i > 0 {
      FirstIsFirst(rs[1..], code, i - 1);
    }
  }
}

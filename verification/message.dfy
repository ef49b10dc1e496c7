/** A message between two agents: its content, which encryption overwrites
    in place, and the three derived code sequences (encoded, encrypted,
    decrypted), each `None` until the operation that fills it has run. */
module Messages {
  import opened JavaTypes
  import opened Agents

  datatype Message = Message(
    from: Agent,
    to: Agent,
    content: JString,
    encoded: Option<seq<Int32>>,
    encrypted: Option<seq<Int32>>,
    decrypted: Option<seq<Int32>>)

  /** Why `decrypt` throws instead of returning: `encrypted` is still null,
      or `content` is shorter than `encrypted` so `charAt` runs off its end. */
  datatype DecryptError = NotEncrypted | ContentTooShort

  const OpenBracket: Char16 := 91
  const CloseBracket: Char16 := 93
  const Newline: Char16 := 10

  /** The constructor: none of the derived sequences exists yet. */
  function NewMessage(from: Agent, to: Agent, content: JString): (m: Message)
    ensures m.from == from && m.to == to && m.content == content
    ensures m.encoded.None? && m.encrypted.None? && m.decrypted.None?
  {
    Message(from, to, content, None, None, None)
  }

  /** The numeric code of each character, built left to right. */
  function Codes(s: JString): (r: seq<Int32>)
    ensures |r| == |s|
    ensures forall i :: 0 <= i < |s| ==> r[i] == s[i]
    decreases |s|
  {
    if |s| == 0 then [] else Codes(s[..|s| - 1]) + [s[|s| - 1] as Int32]
  }

  /** Each code plus `key`, as Java `int` arithmetic, built left to right. */
  function Shift(s: JString, key: int): (r: seq<Int32>)
    ensures |r| == |s|
    ensures forall i :: 0 <= i < |s| ==> r[i] == Wrap32(s[i] + key)
    decreases |s|
  {
    if |s| == 0 then [] else Shift(s[..|s| - 1], key) + [Wrap32(s[|s| - 1] + key)]
  }

  /** `shifted` is `plain` with `key` added to every character, each sum
      cast back to `char`. */
  predicate ShiftedBy(plain: JString, shifted: JString, key: int) {
    |shifted| == |plain| && forall i :: 0 <= i < |plain| ==> shifted[i] == CastChar(plain[i] + key)
  }

  /** `formatContent`: the string built, left to right, from each value cast
      to `char`. */
  function FormatContent(a: seq<int>): (r: JString)
    ensures |r| == |a|
    ensures forall i :: 0 <= i < |a| ==> r[i] == CastChar(a[i])
    decreases |a|
  {
    if |a| == 0 then [] else FormatContent(a[..|a| - 1]) + [CastChar(a[|a| - 1])]
  }

  /** Formatting the codes of a string gives the string back. */
  lemma FormatContentOfCodes(s: JString)
    ensures FormatContent(Codes(s)) == s
  {
  }

  /** `encode`: records the code of every character of the current content;
      nothing else changes. */
  function Encode(m: Message): (r: Message)
    ensures r.encoded.Some? && |r.encoded.value| == |m.content|
    ensures forall i :: 0 <= i < |m.content| ==> r.encoded.value[i] == m.content[i]
    ensures FormatContent(r.encoded.value) == m.content
    ensures r.content == m.content && r.from == m.from && r.to == m.to
    ensures r.encrypted == m.encrypted && r.decrypted == m.decrypted
  {
    FormatContentOfCodes(m.content);
    if |m.content| != 0 then m.(encoded := Some(Codes(m.content)))
    else m.(encoded := Some([]))
  }

  /** Casting the shifted codes back to characters is the same as casting
      each shifted character directly. */
  lemma FormatShift(s: JString, key: int)
    ensures ShiftedBy(s, FormatContent(Shift(s, key)), key)
  {
    var codes := Shift(s, key);
    var f := FormatContent(codes);
    assert |f| == |s|;
    forall i | 0 <= i < |s|
      ensures f[i] == CastChar(s[i] + key)
    {
      var x := s[i] + key;
      assert codes[i] == Wrap32(x);
      assert f[i] == CastChar(codes[i]);
      CastCharWrap32(x);
    }
  }

  /** `encrypt(key)`: on non-empty content, stores each code plus `key`,
      encodes the plaintext first if it was never encoded, and overwrites the
      content with the shifted characters; on empty content only an empty
      `encrypted` sequence is stored. */
  function Encrypt(m: Message, key: Int32): (r: Message)
    ensures r.encrypted.Some? && |r.encrypted.value| == |m.content|
    ensures forall i :: 0 <= i < |m.content| ==> r.encrypted.value[i] == Wrap32(m.content[i] + key)
    ensures ShiftedBy(m.content, r.content, key)
    ensures m.encoded.Some? || |m.content| == 0 ==> r.encoded == m.encoded
    ensures m.encoded.None? && |m.content| > 0 ==> r.encoded == Some(Codes(m.content))
    ensures r.from == m.from && r.to == m.to && r.decrypted == m.decrypted
  {
    if |m.content| != 0 then
      var encrypted := Shift(m.content, key);
      var withCodes := m.(encrypted := Some(encrypted));
      var encoded := if withCodes.encoded.None? then Encode(withCodes) else withCodes;
      FormatShift(m.content, key);
      encoded.(content := FormatContent(encrypted))
    else
      m.(encrypted := Some([]))
  }

  /** The first `n` characters shifted back by `key` are each character's
      code minus `key`, as Java `int` arithmetic. */
  lemma ShiftPrefixBack(s: JString, n: nat, key: Int32)
    requires n <= |s|
    ensures forall i :: 0 <= i < n ==> Shift(s[..n], -(key as int))[i] == Wrap32(s[i] - key)
  {
    var t := s[..n];
    var k := -(key as int);
    var back := Shift(t, k);
    forall i | 0 <= i < n
      ensures back[i] == Wrap32(s[i] - key)
    {
      assert t[i] == s[i];
      assert back[i] == Wrap32(t[i] + k);
    }
  }

  /** `decrypt(key)`: for each position of `encrypted`, the current content's
      code minus `key` is stored and becomes the new content. Throws when
      `encrypted` is null or the content is shorter than it. */
  function Decrypt(m: Message, key: Int32): (r: Result<Message, DecryptError>)
    ensures m.encrypted.None? <==> r == Failure(NotEncrypted)
    ensures r == Failure(ContentTooShort) <==> m.encrypted.Some? && |m.content| < |m.encrypted.value|
    ensures r.Success? ==> r.value.encrypted == m.encrypted && r.value.encoded == m.encoded
    ensures r.Success? ==> r.value.from == m.from && r.value.to == m.to
  {
    if m.encrypted.None? then
      Failure(NotEncrypted)
    else if |m.content| < |m.encrypted.value| then
      Failure(ContentTooShort)
    else
      var n := |m.encrypted.value|;
      var decrypted := Shift(m.content[..n], -(key as int));
      Success(m.(decrypted := Some(decrypted), content := FormatContent(decrypted)))
  }

  /** A fresh Java `int` array of length `n`: all zeros. */
  function Zeros(n: nat): (r: seq<Int32>)
    ensures |r| == n && forall i :: 0 <= i < n ==> r[i] == 0
  {
    if n == 0 then [] else Zeros(n - 1) + [0]
  }

  /** The message as a throwing `decrypt(key)` leaves it. A null
      `encrypted` throws before anything is assigned. A content shorter than
      `encrypted` throws from `charAt` once the loop reaches its end, after
      `decrypted` has been replaced by a new array: the positions before the
      end of the content hold their codes minus `key`, the rest keep the
      array's initial 0. */
  function DecryptLeftover(m: Message, key: Int32): (r: Message)
    requires Decrypt(m, key).Failure?
    ensures m.encrypted.None? ==> r == m
    ensures m.encrypted.Some? ==> r == m.(decrypted := r.decrypted)
    ensures m.encrypted.Some? ==> r.decrypted.Some?
  {
    if m.encrypted.None? then m
    else
      m.(decrypted := Some(Shift(m.content, -(key as int)) + Zeros(|m.encrypted.value| - |m.content|)))
  }

  /** What a throwing `decrypt(key)` leaves in `decrypted` when the content
      is too short: an array as long as `encrypted` whose positions before
      the end of the content hold their codes minus `key`, the rest 0. */
  lemma LeftoverDecrypted(m: Message, key: Int32)
    requires Decrypt(m, key) == Failure(ContentTooShort)
    ensures var d := DecryptLeftover(m, key).decrypted.value;
            && |d| == |m.encrypted.value|
            && (forall i :: 0 <= i < |m.content| ==> d[i] == Wrap32(m.content[i] - key))
            && (forall i :: |m.content| <= i < |d| ==> d[i] == 0)
  {
    var filled := Shift(m.content, -(key as int));
    var d := DecryptLeftover(m, key).decrypted.value;
    forall i | 0 <= i < |m.content|
      ensures d[i] == Wrap32(m.content[i] - key)
    {
      var a, b := m.content[i] + -(key as int), m.content[i] - key;
      assert a == b;
      assert d[i] == filled[i] == Wrap32(a);
    }
  }

  /** What a successful `decrypt(key)` stores: for each position of
      `encrypted`, the current content's code minus `key`, both as the
      `decrypted` values and, cast to characters, as the new content. */
  lemma DecryptedContent(m: Message, key: Int32)
    requires Decrypt(m, key).Success?
    ensures var d := Decrypt(m, key).value;
            && d.decrypted.Some? && |d.decrypted.value| == |m.encrypted.value|
            && (forall i :: 0 <= i < |d.decrypted.value| ==> d.decrypted.value[i] == Wrap32(m.content[i] - key))
            && ShiftedBy(m.content[..|m.encrypted.value|], d.content, -(key as int))
  {
    ShiftPrefixBack(m.content, |m.encrypted.value|, key);
    FormatShift(m.content[..|m.encrypted.value|], -(key as int));
  }

  /** Decrypting with the key just used to encrypt restores the content,
      character for character. */
  lemma EncryptDecryptRoundTrip(m: Message, key: Int32)
    ensures Decrypt(Encrypt(m, key), key).Success?
    ensures Decrypt(Encrypt(m, key), key).value.content == m.content
  {
    var e := Encrypt(m, key);
    var n := |e.encrypted.value|;
    assert n == |m.content| == |e.content|;
    assert e.content[..n] == e.content;
    DecryptedContent(e, key);
    ShiftBack(m.content, e.content, Decrypt(e, key).value.content, key);
  }

  /** Shifting every character by `key` and then by `-key` gives the
      original characters. */
  lemma ShiftBack(plain: JString, cipher: JString, back: JString, key: int)
    requires ShiftedBy(plain, cipher, key)
    requires ShiftedBy(cipher, back, -key)
    ensures back == plain
  {
    forall i | 0 <= i < |plain|
      ensures back[i] == plain[i]
    {
      CastCharUndo(plain[i], key);
    }
  }

  /** `[v]` for one value. */
  function Bracket(v: int): JString {
    [OpenBracket] + Decimal(v) + [CloseBracket]
  }

  /** `output`: every value in order, each written as `[v]`. */
  function Output(a: seq<int>): (r: JString)
    ensures |a| == 0 <==> |r| == 0
    ensures |a| > 0 ==> r[0] == OpenBracket
  {
    if |a| == 0 then [] else Bracket(a[0]) + Output(a[1..])
  }

  /** The position of the first `]` at or after `k`, or `|s|` if none. */
  function CloseIndex(s: JString, k: nat): (r: nat)
    requires k <= |s|
    ensures k <= r <= |s|
    ensures r < |s| ==> s[r] == CloseBracket
    ensures forall i :: k <= i < r ==> s[i] != CloseBracket
    decreases |s| - k
  {
    if k == |s| || s[k] == CloseBracket then k else CloseIndex(s, k + 1)
  }

  /** Reads a listing of `[v]` items back into its values. */
  function ParseOutput(s: JString): Option<seq<int>>
    decreases |s|
  {
    if |s| == 0 then Some([])
    else if s[0] != OpenBracket then None
    else
      var j := CloseIndex(s, 1);
      if j == |s| then None
      else
        match ParseDecimal(s[1..j])
        case None => None
        case Some(v) =>
          match ParseOutput(s[j + 1..])
          case None => None
          case Some(vs) => Some([v] + vs)
  }

  /** In `[` d `]` rest, with no `]` inside d, the first `]` after the
      opening bracket is the one closing d. */
  lemma CloseAfter(d: JString, rest: JString)
    requires forall i :: 0 <= i < |d| ==> d[i] != CloseBracket
    ensures CloseIndex([OpenBracket] + d + [CloseBracket] + rest, 1) == 1 + |d|
  {
    var s := [OpenBracket] + d + [CloseBracket] + rest;
    forall i | 1 <= i < 1 + |d|
      ensures s[i] != CloseBracket
    {
      assert s[i] == d[i - 1];
    }
    assert s[1 + |d|] == CloseBracket;
  }

  /** The listing written by `output` determines the values it lists. */
  lemma {:induction false} OutputRoundTrip(a: seq<int>)
    ensures ParseOutput(Output(a)) == Some(a)
    decreases |a|
  {
    if |a| > 0 {
      var d := Decimal(a[0]);
      var rest := Output(a[1..]);
      assert Output(a) == [OpenBracket] + d + [CloseBracket] + rest;
      DecimalRoundTrip(a[0]);
      OutputRoundTrip(a[1..]);
      forall i | 0 <= i < |d|
        ensures d[i] != CloseBracket
      {
        assert IsDigit(d[i]) || d[i] == MinusChar;
      }
      ParseBracketed(d, rest);
      assert [a[0]] + a[1..] == a;
    }
  }

  /** The parser reads `[` d `]` rest as the value of d before the values
      of the rest. */
  lemma ParseBracketed(d: JString, rest: JString)
    requires forall i :: 0 <= i < |d| ==> d[i] != CloseBracket
    requires ParseDecimal(d).Some? && ParseOutput(rest).Some?
    ensures ParseOutput([OpenBracket] + d + [CloseBracket] + rest)
            == Some([ParseDecimal(d).value] + ParseOutput(rest).value)
  {
    var s := [OpenBracket] + d + [CloseBracket] + rest;
    CloseAfter(d, rest);
    assert s[1..1 + |d|] == d;
    assert s[1 + |d| + 1..] == rest;
    ParseOutputCons(s, 1 + |d|);
  }

  /** The parser's step on `[` d `]` rest: the value of d before the values
      of the rest. */
  lemma ParseOutputCons(s: JString, j: nat)
    requires 0 < j < |s| && s[0] == OpenBracket && CloseIndex(s, 1) == j
    requires ParseDecimal(s[1..j]).Some? && ParseOutput(s[j + 1..]).Some?
    ensures ParseOutput(s) == Some([ParseDecimal(s[1..j]).value] + ParseOutput(s[j + 1..]).value)
  {
  }

  /** A listing the parser accepts opens with `[`, the digits of its first
      value and `]`, and the rest parses on its own. */
  lemma ParseOutputHead(s: JString)
    requires |s| > 0 && ParseOutput(s).Some?
    ensures var j := CloseIndex(s, 1);
            && s[0] == OpenBracket && j < |s| && s[j] == CloseBracket
            && ParseDecimal(s[1..j]).Some? && ParseOutput(s[j + 1..]).Some?
            && ParseOutput(s).value == [ParseDecimal(s[1..j]).value] + ParseOutput(s[j + 1..]).value
  {
    var j := CloseIndex(s, 1);
    assert s[0] == OpenBracket && j < |s|;
    var d := ParseDecimal(s[1..j]);
    assert d.Some?;
    var rest := ParseOutput(s[j + 1..]);
    assert rest.Some?;
    assert ParseOutput(s) == Some([d.value] + rest.value);
  }

  /** A string cut around two positions and put back together. */
  lemma Rejoin(s: JString, j: nat)
    requires 0 < j < |s|
    ensures s == [s[0]] + s[1..j] + [s[j]] + s[j + 1..]
  {
  }

  /** The only text that parses as the values `a` is their listing: the
      parser accepts exactly what `output` writes. */
  lemma {:induction false} ParsedIsOutput(s: JString, a: seq<int>)
    requires ParseOutput(s) == Some(a)
    ensures s == Output(a)
    decreases |s|
  {
    if |s| > 0 {
      ParseOutputHead(s);
      var j := CloseIndex(s, 1);
      var d, rest := s[1..j], s[j + 1..];
      var v := ParseDecimal(d).value;
      var vs := ParseOutput(rest).value;
      ParsedIsDecimal(d, v);
      ParsedIsOutput(rest, vs);
      assert a[0] == v && a[1..] == vs;
      assert Output(a) == [OpenBracket] + Decimal(v) + [CloseBracket] + Output(vs);
      Rejoin(s, j);
    }
  }

  /** A derived sequence as the accessors print it: `absent` when it was
      never computed, else `heading` followed by its listing. */
  function Listing(a: Option<seq<Int32>>, absent: JString, heading: JString): (r: JString)
    ensures a.None? ==> r == absent
    ensures a.Some? ==> |r| >= |heading| && r[..|heading|] == heading
    ensures a.Some? ==> ParseOutput(r[|heading|..]) == Some(a.value)
  {
    match a
    case None => absent
    case Some(values) =>
      var r := heading + Output(values);
      assert r[|heading|..] == Output(values);
      OutputRoundTrip(values);
      r
  }

  /** `getEncoded`. */
  function GetEncoded(m: Message): (r: JString)
    ensures m.encoded.None? ==> r == Lit("<not encoded>")
    ensures m.encoded.Some? ==> |r| >= 9 && r[..9] == Lit("encoded: ")
    ensures m.encoded.Some? ==> ParseOutput(r[9..]) == Some(m.encoded.value)
  {
    Listing(m.encoded, Lit("<not encoded>"), Lit("encoded: "))
  }

  /** `getEncrypted`. */
  function GetEncrypted(m: Message): (r: JString)
    ensures m.encrypted.None? ==> r == Lit("<not encrypted>")
    ensures m.encrypted.Some? ==> |r| >= 11 && r[..11] == Lit("encrypted: ")
    ensures m.encrypted.Some? ==> ParseOutput(r[11..]) == Some(m.encrypted.value)
  {
    Listing(m.encrypted, Lit("<not encrypted>"), Lit("encrypted: "))
  }

  /** `getDecrypted`. */
  function GetDecrypted(m: Message): (r: JString)
    ensures m.decrypted.None? ==> r == Lit("<not decrypted>")
    ensures m.decrypted.Some? ==> |r| >= 11 && r[..11] == Lit("decrypted: ")
    ensures m.decrypted.Some? ==> ParseOutput(r[11..]) == Some(m.decrypted.value)
  {
    Listing(m.decrypted, Lit("<not decrypted>"), Lit("decrypted: "))
  }

  /** `toString`: a header naming both code names, then the content. */
  function ToString(m: Message): (r: JString)
    ensures var f := OrNull(m.from.codeName);
            var t := OrNull(m.to.codeName);
            && |r| == 13 + |f| + 4 + |t| + 2 + |m.content|
            && r[..13] == Lit("Message from ")
            && r[13..13 + |f|] == f
            && r[13 + |f|..17 + |f|] == Lit(" to ")
            && r[17 + |f|..17 + |f| + |t|] == t
            && r[17 + |f| + |t|..] == [58, Newline] + m.content
  {
    var f := OrNull(m.from.codeName);
    var t := OrNull(m.to.codeName);
    var tail := [58, Newline] + m.content;
    ConcatParts(Lit("Message from "), f, Lit(" to "), t, tail);
    Lit("Message from ") + f + Lit(" to ") + t + tail
  }

  /** Four texts, one per line. */
  function FourLines(a: JString, b: JString, c: JString, d: JString): (r: JString)
    ensures var t := |a| + 1;
            && |r| == t + |b| + 1 + |c| + 1 + |d|
            && r[..t] == a + [Newline]
            && r[t..t + |b|] == b
            && r[t + |b|] == Newline
            && r[t + |b| + 1..t + |b| + 1 + |c|] == c
            && r[t + |b| + 1 + |c|..] == [Newline] + d
  {
    var head, tail := a + [Newline], [Newline] + d;
    ConcatParts(head, b, [Newline], c, tail);
    var r := head + b + [Newline] + c + tail;
    assert r[|head| + |b|..|head| + |b| + 1] == [Newline];
    r
  }

  /** `debugString`: the summary, then the three listings, one per line. */
  function DebugString(m: Message): (r: JString)
    ensures var t := |ToString(m)| + 1;
            var e := GetEncoded(m);
            var c := GetEncrypted(m);
            && |r| == t + |e| + 1 + |c| + 1 + |GetDecrypted(m)|
            && r[..t] == ToString(m) + [Newline]
            && r[t..t + |e|] == e
            && r[t + |e|] == Newline
            && r[t + |e| + 1..t + |e| + 1 + |c|] == c
            && r[t + |e| + 1 + |c|..] == [Newline] + GetDecrypted(m)
  {
    FourLines(ToString(m), GetEncoded(m), GetEncrypted(m), GetDecrypted(m))
  }
}

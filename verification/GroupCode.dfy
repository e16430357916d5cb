/** A code that turns groups of three bytes into groups of four characters; the last group may be shorter. */
module GroupCode {
  import opened Bytes

  datatype Result<+T> = Ok(value: T) | Err(code: int)

  type Group = d: seq<byte> | 1 <= |d| <= 3 witness [0]
  type Quad = c: seq<byte> | |c| == 4 && forall k :: 0 <= k < 4 ==> c[k] != 0 witness [1, 1, 1, 1]

  type Encoder = Group -> Quad
  /** Told whether the group is the last one, as only that one may be short. */
  type Decoder = (Quad, bool) -> Result<Group>
  type Text = s: seq<byte> | |s| % 4 == 0 && forall k :: 0 <= k < |s| ==> s[k] != 0

  function Encoded(enc: Encoder, data: seq<byte>): (r: Text)
    ensures |r| == (|data| + 2) / 3 * 4
  {
    if data == [] then []
    else if |data| <= 3 then enc(data)
    else enc(data[..3]) + Encoded(enc, data[3..])
  }

  /** One decoded group in front of the decoded rest; the first error wins. */
  function Join(first: Result<seq<byte>>, rest: Result<seq<byte>>): (r: Result<seq<byte>>)
  {
    if first.Err? then first else if rest.Err? then rest else Ok(first.value + rest.value)
  }

  function Decoded(dec: Decoder, s: Text): (r: Result<seq<byte>>)
    ensures r.Ok? ==> |r.value| <= |s| / 4 * 3
  {
    if s == [] then Ok([]) else Join(dec(s[..4], |s| == 4), Decoded(dec, s[4..]))
  }

  /** On single groups the decoder undoes the encoder, and accepts nothing else. */
  ghost predicate Inverse(enc: Encoder, dec: Decoder) {
    && (forall d: Group, last {:trigger dec(enc(d), last)} :: |d| == 3 || last ==> dec(enc(d), last) == Ok(d))
    && (forall c: Quad, last {:trigger dec(c, last)} :: dec(c, last).Ok? ==>
          (|dec(c, last).value| == 3 || last) && enc(dec(c, last).value) == c)
  }

  lemma {:induction false} DecodedOfEncoded(enc: Encoder, dec: Decoder, d: seq<byte>)
    requires Inverse(enc, dec)
    ensures Decoded(dec, Encoded(enc, d)) == Ok(d)
  {
    var s := Encoded(enc, d);
    if d == [] {
    } else if |d| <= 3 {
      var group: Group := d;
      assert dec(enc(group), true) == Ok(group);
      assert s[..4] == s && s[4..] == [];
      assert d + [] == d;
    } else {
      var group: Group := d[..3];
      assert dec(enc(group), false) == Ok(group);
      DecodedOfEncoded(enc, dec, d[3..]);
      assert s[..4] == enc(d[..3]) && s[4..] == Encoded(enc, d[3..]);
      assert d[..3] + d[3..] == d;
    }
  }

  lemma EncodedCons(enc: Encoder, first: Group, rest: seq<byte>)
    requires |first| == 3 || rest == []
    ensures Encoded(enc, first + rest) == enc(first) + Encoded(enc, rest)
  {
    if rest == [] {
      assert first + rest == first;
      assert enc(first) + [] == enc(first);
    } else {
      assert (first + rest)[..3] == first && (first + rest)[3..] == rest;
    }
  }

  lemma {:induction false} EncodedOfDecoded(enc: Encoder, dec: Decoder, s: Text)
    requires Inverse(enc, dec) && Decoded(dec, s).Ok?
    ensures Encoded(enc, Decoded(dec, s).value) == s
  {
    if s != [] {
      var first, rest := dec(s[..4], |s| == 4).value, Decoded(dec, s[4..]).value;
      assert (|first| == 3 || |s| == 4) && enc(first) == s[..4];
      EncodedOfDecoded(enc, dec, s[4..]);
      if |s| == 4 {
        assert s[4..] == [] && rest == [];
      }
      EncodedCons(enc, first, rest);
      assert s == s[..4] + s[4..];
    }
  }

  /** The code is a bijection between byte strings and the texts the decoder accepts. */
  lemma AcceptedIffEncoding(enc: Encoder, dec: Decoder, s: Text, d: seq<byte>)
    requires Inverse(enc, dec)
    ensures Decoded(dec, s) == Ok(d) <==> s == Encoded(enc, d)
  {
    DecodedOfEncoded(enc, dec, d);
    if Decoded(dec, s).Ok? {
      EncodedOfDecoded(enc, dec, s);
    }
  }

  /** Decoding group after group: what was decoded so far, in front of the rest. */
  lemma DecodeStep(dec: Decoder, s: Text, i: nat, done: seq<byte>)
    requires i % 4 == 0 && i + 4 <= |s|
    ensures var group := dec(s[i..i + 4], i == |s| - 4);
            Join(Ok(done), Decoded(dec, s[i..])) ==
            if group.Err? then group else Join(Ok(done + group.value), Decoded(dec, s[i + 4..]))
  {
    var rest := s[i..];
    assert rest[..4] == s[i..i + 4] && rest[4..] == s[i + 4..];
    var group, tail := dec(s[i..i + 4], i == |s| - 4), Decoded(dec, s[i + 4..]);
    if group.Ok? && tail.Ok? {
      assert done + (group.value + tail.value) == (done + group.value) + tail.value;
    }
  }

  lemma JoinEmpty(rest: Result<seq<byte>>)
    ensures Join(Ok([]), rest) == rest && Join(rest, Ok([])) == rest
  {
    if rest.Ok? {
      assert [] + rest.value == rest.value && rest.value + [] == rest.value;
    }
  }

  // ---------------------------------------------------------------- which error it is

  /** Group g of a text. */
  function GroupOf(s: Text, g: nat): Quad
    requires 4 * g + 4 <= |s|
  {
    s[4 * g..4 * g + 4]
  }

  /** All groups before group g decode, and this one does not. */
  predicate FailsAt(dec: Decoder, s: Text, g: nat, code: int) {
    && 4 * g + 4 <= |s| && dec(GroupOf(s, g), 4 * g + 4 == |s|) == Err(code)
    && forall h: nat {:trigger GroupOf(s, h)} :: h < g ==> dec(GroupOf(s, h), false).Ok?
  }

  lemma GroupBehind(s: Text, rest: Text, i: nat)
    requires |s| >= 4 && rest == s[4..] && 4 * i + 4 <= |rest|
    ensures GroupOf(s, i + 1) == GroupOf(rest, i)
  {
    assert rest[4 * i..4 * i + 4] == s[4 * (i + 1)..4 * (i + 1) + 4];
  }

  lemma FailsLater(dec: Decoder, s: Text, rest: Text, h: nat, code: int)
    requires |s| > 4 && rest == s[4..] && FailsAt(dec, rest, h, code) && dec(GroupOf(s, 0), false).Ok?
    ensures FailsAt(dec, s, h + 1, code)
  {
    GroupBehind(s, rest, h);
    forall i: nat {:trigger GroupOf(s, i)} | i < h + 1
      ensures dec(GroupOf(s, i), false).Ok?
    {
      if i > 0 {
        GroupBehind(s, rest, i - 1);
      }
    }
  }

  /** An error is that of the first group that has one. */
  lemma {:induction false} FirstErrorCounts(dec: Decoder, s: Text) returns (g: nat)
    requires Decoded(dec, s).Err?
    ensures FailsAt(dec, s, g, Decoded(dec, s).code)
    decreases |s|
  {
    assert s[0..4] == s[..4];
    if dec(s[..4], |s| == 4).Err? {
      g := 0;
    } else {
      g := FirstErrorCounts(dec, s[4..]);
      FailsLater(dec, s, s[4..], g, Decoded(dec, s).code);
      g := g + 1;
    }
  }
}

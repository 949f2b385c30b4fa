/** Host names in DNS messages: labels with a length byte in front, as sections 3.1 and 4.1.2 of RFC 1035
    describe them. */
module DnsNames {
  import opened Bytes

  const DOT: byte := 46

  function FirstLen(s: seq<byte>): (n: nat)
    ensures n <= |s| && (n < |s| ==> s[n] == DOT) && forall i | 0 <= i < n :: s[i] != DOT
  {
    if s == [] || s[0] == DOT then 0 else 1 + FirstLen(s[1..])
  }

  /** The labels between the dots. */
  function Split(s: seq<byte>): (labels: seq<seq<byte>>)
    ensures labels != []
    decreases |s|
  {
    var n := FirstLen(s);
    if n == |s| then [s] else [s[..n]] + Split(s[n + 1..])
  }

  function Join(labels: seq<seq<byte>>): seq<byte> {
    if labels == [] then []
    else if |labels| == 1 then labels[0]
    else labels[0] + [DOT] + Join(labels[1..])
  }

  /** Lengths are stored in one byte. */
  function Encode(labels: seq<seq<byte>>): seq<byte> {
    if labels == [] then [0]
    else [(|labels[0]| % 256) as byte] + labels[0] + Encode(labels[1..])
  }

  /** Following the length bytes leads to a zero. */
  ghost predicate Terminated(data: seq<byte>)
    decreases |data|
  {
    && data != []
    && (data[0] != 0 ==> 1 + data[0] as nat <= |data| && Terminated(data[1 + data[0] as nat..]))
  }

  /** The labels that a reader of the message finds, who takes every non-zero length byte for a length, as
      questionLength does.  Section 3.1 of RFC 1035 only allows lengths up to 63. */
  function Decode(data: seq<byte>): seq<seq<byte>>
    requires Terminated(data)
    decreases |data|
  {
    if data[0] == 0 then []
    else [data[1..1 + data[0] as nat]] + Decode(data[1 + data[0] as nat..])
  }

  function WireLength(data: seq<byte>): (n: nat)
    requires Terminated(data)
    ensures 0 < n <= |data|
    decreases |data|
  {
    if data[0] == 0 then 1
    else 1 + data[0] as nat + WireLength(data[1 + data[0] as nat..])
  }

  method QuestionLength(data: seq<byte>) returns (n: nat)
    requires Terminated(data)
    ensures n == WireLength(data)
  {
    var total, pos := 0, 0;
    while data[pos] != 0
      invariant pos < |data| && total == pos && Terminated(data[pos..])
      invariant total + WireLength(data[pos..]) == WireLength(data)
      decreases |data| - pos
    {
      var len := data[pos] as nat;
      assert data[pos..][1 + len..] == data[pos + 1 + len..];
      total := total + len + 1;
      pos := pos + len + 1;
    }
    n := total + 1;
  }

  // ----- the backward pass -----

  /** What the backward pass has written once it has come down to `s`: all but the first length. */
  function Tail(s: seq<byte>): (t: seq<byte>)
    ensures |t| == |s| + 1
  {
    if s == [] then [0]
    else [if s[0] == DOT then (FirstLen(s[1..]) % 256) as byte else s[0]] + Tail(s[1..])
  }

  /** convertHostname; `src` is followed by a zero byte. */
  method ConvertHostname(dst: array<byte>, src: seq<byte>)
    requires dst.Length >= |src| + 2
    modifies dst
    ensures dst[..|src| + 2] == Encode(Split(src))
    ensures dst[|src| + 2..] == old(dst[|src| + 2..])
  {
    var len := |src|;
    var from := len;
    len := len + 1;
    var to := len;
    var partLen := -1;
    var i := 0;
    ghost var end := |src| + 2;
    while i < len
      invariant i <= len && from == |src| - i && to == |src| + 1 - i
      invariant partLen == if i == 0 then -1 else FirstLen(src[from + 1..])
      invariant i > 0 ==> dst[to + 1..end] == Tail(src[from + 1..])
      invariant dst[end..] == old(dst[end..])
    {
      var c: byte := if from == |src| then 0 else src[from];
      ghost var s := if i == 0 then [] else src[from + 1..];
      if c == DOT {
        dst[to] := (partLen % 256) as byte;
        partLen := 0;
      } else {
        dst[to] := c;
        partLen := partLen + 1;
      }
      assert i > 0 ==> src[from..][0] == c && src[from..][1..] == s;
      assert dst[to..end] == [dst[to]] + dst[to + 1..end];
      i, to, from := i + 1, to - 1, from - 1;
    }
    dst[to] := (partLen % 256) as byte;
    assert src[0..] == src;
    assert dst[..end] == [dst[0]] + dst[1..end];
    TailEncodes(src);
  }

  lemma {:induction false} TailEncodes(s: seq<byte>)
    ensures [(FirstLen(s) % 256) as byte] + Tail(s) == Encode(Split(s))
    decreases |s|
  {
    var n := FirstLen(s);
    TailFirst(s);
    if n < |s| { TailEncodes(s[n + 1..]); }
  }

  lemma {:induction false} TailFirst(s: seq<byte>)
    ensures var n := FirstLen(s);
      Tail(s) == s[..n] + if n == |s| then [0] else [(FirstLen(s[n + 1..]) % 256) as byte] + Tail(s[n + 1..])
    decreases |s|
  {
    var n := FirstLen(s);
    if n > 0 {
      TailFirst(s[1..]);
      assert s[..n] == [s[0]] + s[1..][..n - 1];
      if n < |s| { assert s[1..][n..] == s[n + 1..]; }
    }
  }

  // ----- round trip -----

  lemma {:induction false} JoinSplit(s: seq<byte>)
    ensures Join(Split(s)) == s
    decreases |s|
  {
    hide Join;
    var n := FirstLen(s);
    if n < |s| {
      JoinSplit(s[n + 1..]);
      JoinCons(s[..n], Split(s[n + 1..]));
      assert s == s[..n] + [DOT] + s[n + 1..];
    } else {
      JoinCons(s, []);
      assert [s] + [] == [s];
    }
  }

  lemma JoinCons(l: seq<byte>, rest: seq<seq<byte>>)
    ensures Join([l] + rest) == if rest == [] then l else l + [DOT] + Join(rest)
  {
    assert ([l] + rest)[1..] == rest;
  }

  /** The labels before the first empty one. */
  function Readable(labels: seq<seq<byte>>): (r: seq<seq<byte>>)
    ensures r <= labels && forall i | 0 <= i < |r| :: r[i] != []
    ensures |r| < |labels| ==> labels[|r|] == []
  {
    if labels == [] || labels[0] == [] then [] else [labels[0]] + Readable(labels[1..])
  }

  ghost predicate Short(labels: seq<seq<byte>>) {
    forall i | 0 <= i < |labels| :: |labels[i]| < 256
  }

  ghost predicate NoneEmpty(labels: seq<seq<byte>>) {
    forall i | 0 <= i < |labels| :: labels[i] != []
  }

  lemma EncodeCons(l: seq<byte>, rest: seq<seq<byte>>)
    ensures Encode([l] + rest) == [(|l| % 256) as byte] + (l + Encode(rest))
  {
    assert ([l] + rest)[1..] == rest;
  }

  /** A label whose length byte is right is read as such. */
  lemma ReadsGood(l: seq<byte>, rest: seq<seq<byte>>)
    requires 0 < |l| < 256
    ensures var e := Encode([l] + rest);
      && (Terminated(e) <==> Terminated(Encode(rest)))
      && (Terminated(e) ==>
            Decode(e) == [l] + Decode(Encode(rest)) && WireLength(e) == 1 + |l| + WireLength(Encode(rest)))
  {
    hide Encode;
    EncodeCons(l, rest);
    var e := Encode([l] + rest);
    assert e[1..1 + |l|] == l && e[1 + |l|..] == Encode(rest);
  }

  /** A label that is empty or too long for its length byte is read as the end, or too short. */
  lemma ReadsBad(l: seq<byte>, rest: seq<seq<byte>>)
    requires l == [] || |l| >= 256
    ensures var e, m := Encode([l] + rest), |l| % 256;
      && (m == 0 ==> Terminated(e) && Decode(e) == [] && WireLength(e) == 1)
      && (m > 0 && Terminated(e) ==> Decode(e) != [] && Decode(e)[0] == l[..m])
  {
    hide Encode;
    EncodeCons(l, rest);
    var e, m := Encode([l] + rest), |l| % 256;
    if m > 0 { assert e[1..1 + m] == l[..m]; }
  }

  lemma ReadsNothing()
    ensures Encode([]) == [0] && Terminated(Encode([])) && Decode(Encode([])) == [] && WireLength(Encode([])) == 1
  {}

  /** A reader finds the labels before the first empty one, whose length it takes for the end. */
  lemma {:induction false} DecodeEncode(labels: seq<seq<byte>>)
    requires Short(labels)
    ensures Terminated(Encode(labels)) && Decode(Encode(labels)) == Readable(labels)
    ensures WireLength(Encode(labels)) == |Encode(Readable(labels))|
  {
    hide Encode, Decode, Terminated, WireLength;
    ReadsNothing();
    if labels != [] {
      var l, rest := labels[0], labels[1..];
      assert labels == [l] + rest;
      if l == [] {
        ReadsBad(l, rest);
      } else {
        DecodeEncode(rest);
        ReadsGood(l, rest);
        EncodeCons(l, Readable(rest));
      }
    }
  }

  lemma {:induction false} Lengths(labels: seq<seq<byte>>)
    requires labels != []
    ensures |Encode(labels)| == |Join(labels)| + 2
  {
    if |labels| > 1 { Lengths(labels[1..]); } else { assert labels[1..] == []; }
  }

  lemma {:induction false} PrefixShorter(a: seq<seq<byte>>, labels: seq<seq<byte>>)
    requires a <= labels && |a| < |labels|
    ensures |Encode(a)| < |Encode(labels)|
  {
    if a != [] { PrefixShorter(a[1..], labels[1..]); } else { EncodeLength(labels); }
  }

  lemma EncodeLength(labels: seq<seq<byte>>)
    requires labels != []
    ensures |Encode(labels)| >= 2
  {
    assert |Encode(labels[1..])| >= 1;
  }

  ghost predicate NoDots(labels: seq<seq<byte>>) {
    forall i | 0 <= i < |labels| :: DOT !in labels[i]
  }

  lemma {:induction false} SplitHasNoDots(s: seq<byte>)
    ensures NoDots(Split(s))
    decreases |s|
  {
    var n := FirstLen(s);
    if n < |s| { SplitHasNoDots(s[n + 1..]); }
  }

  /** For all labels: a reader finds them again exactly if none is empty and all fit their length byte. */
  lemma {:induction false} DecodeExactly(labels: seq<seq<byte>>)
    ensures Terminated(Encode(labels)) && Decode(Encode(labels)) == labels <==> Short(labels) && NoneEmpty(labels)
  {
    hide Encode, Decode, Terminated;
    if labels == [] {
      ReadsNothing();
    } else {
      var l, rest := labels[0], labels[1..];
      assert labels == [l] + rest;
      if 0 < |l| < 256 {
        ReadsGood(l, rest);
        DecodeExactly(rest);
      } else {
        ReadsBad(l, rest);
      }
    }
  }

  /** What is read instead does not make up the name either. */
  lemma {:induction false} JoinDiffers(labels: seq<seq<byte>>)
    requires labels != [] && labels != [[]] && NoDots(labels) && !(Short(labels) && NoneEmpty(labels))
    requires Terminated(Encode(labels))
    ensures Join(Decode(Encode(labels))) != Join(labels)
    decreases |labels|, 0
  {
    hide Encode, Decode, Terminated;
    var l, rest := labels[0], labels[1..];
    assert labels == [l] + rest;
    if 0 < |l| < 256 {
      ReadsGood(l, rest);
      GoodJoinDiffers(l, rest);
    } else {
      ReadsBad(l, rest);
      BadJoinDiffers(l, rest, Decode(Encode(labels)));
    }
  }

  lemma {:induction false} GoodJoinDiffers(l: seq<byte>, rest: seq<seq<byte>>)
    requires NoDots(rest) && !(Short(rest) && NoneEmpty(rest)) && Terminated(Encode(rest))
    ensures Join([l] + Decode(Encode(rest))) != Join([l] + rest)
    decreases |rest|, 1
  {
    hide Join;
    var d := Decode(Encode(rest));
    JoinCons(l, rest);
    JoinCons(l, d);
    assert (l + [DOT] + Join(rest))[|l| + 1..] == Join(rest) && (l + [DOT] + Join(d))[|l| + 1..] == Join(d);
    if rest != [[]] { JoinDiffers(rest); } else { ReadsBad([], []); }
  }

  lemma BadJoinDiffers(l: seq<byte>, rest: seq<seq<byte>>, d: seq<seq<byte>>)
    requires (l == [] && rest != []) || |l| >= 256
    requires DOT !in l && if |l| % 256 == 0 then d == [] else d != [] && d[0] == l[..|l| % 256]
    ensures Join(d) != Join([l] + rest)
  {
    var j, m := Join([l] + rest), |l| % 256;
    assert |j| > m && (|l| > m ==> j[m] == l[m]);
    if |d| > 1 { assert Join(d)[m] == DOT; }
  }

  /** A name takes two bytes more in a message.  It is read back whole exactly if no label is empty and all
      fit their length byte (the empty name comes back empty); if they fit, it is measured whole exactly if
      no label is empty. */
  lemma NameRoundTrip(name: seq<byte>)
    ensures var labels, e := Split(name), Encode(Split(name));
      && |e| == |name| + 2
      && (Terminated(e) && Decode(e) == labels <==> Short(labels) && NoneEmpty(labels))
      && (Terminated(e) && Join(Decode(e)) == name <==> (Short(labels) && NoneEmpty(labels)) || name == [])
      && (Short(labels) ==> Terminated(e) && (WireLength(e) == |name| + 2 <==> NoneEmpty(labels)))
  {
    hide Encode, Decode, Split, Join, Terminated;
    var labels := Split(name);
    JoinSplit(name);
    Lengths(labels);
    DecodeExactly(labels);
    SplitHasNoDots(name);
    NoLabels();
    if labels == [[]] {
      ReadsBad([], []);
    } else if !(Short(labels) && NoneEmpty(labels)) && Terminated(Encode(labels)) {
      JoinDiffers(labels);
    }
    if Short(labels) {
      DecodeEncode(labels);
      if |Readable(labels)| < |labels| { PrefixShorter(Readable(labels), labels); }
    }
  }

  lemma NoLabels()
    ensures Join([]) == [] == Join([[]]) && Split([]) == [[]]
  {}

  /** The name "a.bc". */
  lemma ShortName()
    ensures Encode(Split([97, 46, 98, 99])) == [1, 97, 2, 98, 99, 0]
  {
    var s: seq<byte> := [97, 46, 98, 99];
    var t: seq<byte> := [98, 99];
    assert t[1..] == [99] && t[1..][1..] == [];
    assert FirstLen(t) == 2 && Split(t) == [t];
    assert s[1..][0] == DOT && FirstLen(s) == 1 && s[..1] == [97] && s[2..] == t;
    assert Split(s)[1..] == [t] && [t][1..] == [];
    assert Encode([t]) == [2] + t + [0];
  }
}

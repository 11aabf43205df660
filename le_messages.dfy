/** The text side of the leader-election protocol thread (protocols.c): C
    character buffers and the C library calls the thread makes on them
    (strncpy, strncmp, atoi, sprintf), the three-digit rendering of an
    election value, the le_ack message and the search of the neighbour
    table. */
module LeMessages {
  import opened Decimal

  /** MAX_IPC_MESSAGE_SIZE: the size of the buffer a string message is copied to. */
  const MaxIpcMessageSize: nat := 256
  /** IPV6_ADDRESS_LEN: the size of every buffer holding a node identifier. */
  const Ipv6AddressLen: nat := 46
  /** MAX_NEIGHBORS: the number of slots of the neighbour table. */
  const MaxNeighbors: nat := 20

  function Zeros(n: nat): (z: seq<char>)
    ensures |z| == n && forall k :: 0 <= k < n ==> z[k] == '\0'
  {
    seq(n, _ => '\0')
  }

  /** The first n characters of s, or all of s when it is shorter. */
  function Truncate(s: string, n: nat): (t: string)
    ensures |t| == if |s| <= n then |s| else n
    ensures t == s[..|t|]
  {
    if |s| <= n then s else s[..n]
  }

  /** The string a C character buffer holds: everything before its first
      NUL, or the whole buffer when it holds none. */
  function CStr(buf: seq<char>): (s: string)
    ensures |s| <= |buf| && s == buf[..|s|]
    ensures '\0' !in s && forall j :: 0 <= j < |s| ==> buf[j] != '\0'
    ensures |s| < |buf| ==> buf[|s|] == '\0'
  {
    if buf == [] || buf[0] == '\0' then [] else [buf[0]] + CStr(buf[1..])
  }

  /** What strncpy(t, src, b) leaves in t[0 .. b): the characters of src up to
      its first NUL, at most b of them, then NULs up to b. The end of src
      stands for its terminating NUL. */
  function NCopy(src: seq<char>, b: nat): (t: seq<char>)
    ensures t == Truncate(CStr(src), b) + Zeros(b - |Truncate(CStr(src), b)|)
  {
    if b == 0 then []
    else if src == [] || src[0] == '\0' then Zeros(b)
    else [src[0]] + NCopy(src[1..], b - 1)
  }

  /** Character j of a strncpy: the source's while its string lasts, then NUL. */
  lemma NCopyAt(src: seq<char>, b: nat, j: nat)
    requires j < b
    ensures NCopy(src, b)[j] == if j < |CStr(src)| then src[j] else '\0'
  {
    var c := CStr(src);
    var tr := Truncate(c, b);
    if j < |tr| {
      assert NCopy(src, b)[j] == tr[j] == c[j];
    }
  }

  /** A buffer holding src's characters up to `copied`, where the copy
      stopped at b or at the end of src's string, then NULs up to b, is the
      strncpy of src. */
  lemma NCopyOf(x: seq<char>, src: seq<char>, b: nat, copied: nat)
    requires |x| == b && copied <= b && (copied == b || copied == |CStr(src)|) && copied <= |CStr(src)|
    requires forall j :: 0 <= j < copied ==> x[j] == src[j]
    requires forall j :: copied <= j < b ==> x[j] == '\0'
    ensures x == NCopy(src, b)
  {
    forall j | 0 <= j < b
      ensures x[j] == NCopy(src, b)[j]
    {
      NCopyAt(src, b, j);
    }
  }

  /** The string substr(s, a, b, t) leaves in the b-character buffer t: the
      string at offset a of s, cut to b characters. */
  lemma NCopyString(src: seq<char>, b: nat)
    ensures CStr(NCopy(src, b)) == Truncate(CStr(src), b)
  {
    var c := Truncate(CStr(src), b);
    var t := NCopy(src, b);
    assert t[..|c|] == c;
    CStrOfPadded(c, b - |c|);
  }

  lemma {:induction false} CStrOfPadded(c: string, n: nat)
    requires '\0' !in c
    ensures CStr(c + Zeros(n)) == c
    decreases |c|
  {
    if c == [] {
      assert c + Zeros(n) == Zeros(n);
    } else {
      assert c[0] in c;
      assert (c + Zeros(n))[1..] == c[1..] + Zeros(n);
      CStrOfPadded(c[1..], n);
    }
  }

  /** strncmp(buf, p, |p|) == 0 for a literal p without NUL: buf begins with p. */
  predicate StartsWith(buf: seq<char>, p: string) {
    |p| <= |buf| && buf[..|p|] == p
  }

  /** The characters C's isspace accepts in the "C" locale. */
  predicate IsSpace(c: char) {
    c == ' ' || c == '\t' || c == '\n' || c == '\U{0B}' || c == '\U{0C}' || c == '\r'
  }

  function SpacesEnd(s: string): (n: nat)
    ensures n <= |s| && (n == |s| || !IsSpace(s[n]))
    ensures forall k :: 0 <= k < n ==> IsSpace(s[k])
  {
    if s != [] && IsSpace(s[0]) then 1 + SpacesEnd(s[1..]) else 0
  }

  /** The longest prefix of s made of decimal digits. */
  function LeadingDigits(s: string): (d: string)
    ensures AllDigits(d) && |d| <= |s| && d == s[..|d|]
    ensures |d| == |s| || !IsDigit(s[|d|])
  {
    if s != [] && IsDigit(s[0]) then [s[0]] + LeadingDigits(s[1..]) else []
  }

  /** C's atoi: leading white space, an optional sign, then as many digits as
      follow; 0 when there are none. (The protocol only hands it strings of at
      most three characters, so the value always fits an int.) */
  function Atoi(s: string): int {
    var t := s[SpacesEnd(s)..];
    if t != [] && t[0] == '-' then -(DigitsValue(LeadingDigits(t[1..])) as int)
    else if t != [] && t[0] == '+' then DigitsValue(LeadingDigits(t[1..]))
    else DigitsValue(LeadingDigits(t))
  }

  /** What the thread prints into neighborM for its current minimum: "00%d"
      below 10, "0%d" below 100, "%d" otherwise. */
  function FormatM(min: nat): string {
    if min < 10 then "00" + NatToString(min)
    else if min < 100 then "0" + NatToString(min)
    else NatToString(min)
  }

  /** Every value from 1 to 999 is written as exactly three digits whose value
      is the number. */
  lemma FormatMDigits(v: nat)
    requires 1 <= v <= 999
    ensures |FormatM(v)| == 3 && AllDigits(FormatM(v))
    ensures DigitsValue(FormatM(v)) == v
  {
    NatToStringValue(v);
    NatToStringLength(v, 1);
    NatToStringLength(v, 2);
    NatToStringLength(v, 3);
    if v < 10 {
      LeadingZeroValue(NatToString(v));
      LeadingZeroValue("0" + NatToString(v));
      assert "00" + NatToString(v) == "0" + ("0" + NatToString(v));
    } else if v < 100 {
      LeadingZeroValue(NatToString(v));
    }
  }

  /** atoi reads back what FormatM wrote. */
  lemma AtoiFormatM(v: nat)
    requires 1 <= v <= 999
    ensures Atoi(FormatM(v)) == v
  {
    FormatMDigits(v);
    AtoiDigits(FormatM(v));
  }

  /** On a non-empty string of digits atoi is the value of the digits. */
  lemma AtoiDigits(s: string)
    requires s != [] && AllDigits(s)
    ensures Atoi(s) == DigitsValue(s)
  {
    assert IsDigit(s[0]);
    assert SpacesEnd(s) == 0;
    LeadingDigitsAll(s);
  }

  lemma {:induction false} LeadingDigitsAll(s: string)
    requires AllDigits(s)
    ensures LeadingDigits(s) == s
    decreases |s|
  {
    if s != [] {
      assert IsDigit(s[0]);
      LeadingDigitsAll(s[1..]);
    }
  }

  /** The le_ack message announcing value v with leader id. */
  function LeAckMessage(v: nat, id: string): string {
    "le_ack:" + FormatM(v) + ":" + id
  }

  /** msg_content after memset and strncpy of a received string of
      advertised length len (the sender puts strlen of the string there). */
  function MessageBuffer(text: string, len: nat): (buf: seq<char>)
    requires len < MaxIpcMessageSize
    ensures |buf| == MaxIpcMessageSize
  {
    NCopy(text, len + 1) + Zeros(MaxIpcMessageSize - (len + 1))
  }

  /** The value field of an le_ack: three characters from offset 7, as atoi
      reads them from neighborM. */
  function LeAckValue(buf: seq<char>): int
    requires |buf| >= 10
  {
    Atoi(CStr(NCopy(buf[7..], 3)))
  }

  /** The sender field of an le_ack: the string from offset 11, cut to the
      46-character identifier buffer. */
  function LeAckSender(buf: seq<char>): string
    requires |buf| >= 57
  {
    CStr(NCopy(buf[11..], Ipv6AddressLen))
  }

  /** The identifier an nd_ack carries: the string from offset 7, cut to the
      identifier buffer. */
  function NdAckSender(buf: seq<char>): string
    requires |buf| >= 53
  {
    CStr(NCopy(buf[7..], Ipv6AddressLen))
  }

  /** A string message arrives as its own characters followed by NULs. */
  lemma MessageBufferOf(text: string)
    requires |text| < MaxIpcMessageSize && '\0' !in text
    ensures MessageBuffer(text, |text|) == text + Zeros(MaxIpcMessageSize - |text|)
  {
    var b := MessageBuffer(text, |text|);
    var z := Zeros(MaxIpcMessageSize - |text|);
    assert CStr(text) == text by { CStrOfPadded(text, 0); assert text + Zeros(0) == text; }
    assert b == text + [z[0]] + Zeros(MaxIpcMessageSize - (|text| + 1));
  }

  /** Round trip of the le_ack message: a neighbour that receives what this
      thread sends reads back the same value and the leader cut to 46
      characters. */
  lemma LeAckRoundTrip(v: nat, id: string)
    requires 1 <= v <= 999
    requires '\0' !in id && |LeAckMessage(v, id)| < MaxIpcMessageSize
    ensures StartsWith(MessageBuffer(LeAckMessage(v, id), |LeAckMessage(v, id)|), "le_ack:")
    ensures LeAckValue(MessageBuffer(LeAckMessage(v, id), |LeAckMessage(v, id)|)) == v
    ensures LeAckSender(MessageBuffer(LeAckMessage(v, id), |LeAckMessage(v, id)|)) == Truncate(id, Ipv6AddressLen)
  {
    var f := FormatM(v);
    FormatMDigits(v);
    var msg := LeAckMessage(v, id);
    LeAckNoNul(v, id);
    var z := Zeros(MaxIpcMessageSize - |msg|);
    MessageBufferOf(msg);
    var buf := msg + z;
    LeAckLayout("le_ack:", f, id, z);
    ThreeCharField(f, ":" + id + z);
    AtoiFormatM(v);
    NCopyString(buf[11..], Ipv6AddressLen);
    CStrOfPadded(id, |z|);
  }

  lemma LeAckNoNul(v: nat, id: string)
    requires 1 <= v <= 999 && '\0' !in id
    ensures '\0' !in LeAckMessage(v, id)
  {
    var f := FormatM(v);
    FormatMDigits(v);
    var msg := LeAckMessage(v, id);
    forall k | 0 <= k < |msg| ensures msg[k] != '\0' {
      if 7 <= k < 10 {
        assert msg[k] == f[k - 7] && IsDigit(f[k - 7]);
      } else if k >= 11 {
        assert msg[k] == id[k - 11];
        assert id[k - 11] in id;
      }
    }
  }

  /** Where the fields of an le_ack sit in the received buffer. */
  lemma LeAckLayout(head: string, f: string, id: string, z: seq<char>)
    requires |head| == 7 && |f| == 3
    ensures (head + f + ":" + id + z)[..7] == head
    ensures (head + f + ":" + id + z)[7..] == f + (":" + id + z)
    ensures (head + f + ":" + id + z)[11..] == id + z
  {
    var buf := head + f + ":" + id + z;
    assert buf == head + (f + (":" + id + z));
    assert buf == (head + f + ":") + (id + z);
  }

  /** A three-character NUL-free field followed by anything comes back whole
      from a three-character strncpy. */
  lemma ThreeCharField(f: string, rest: seq<char>)
    requires |f| == 3 && '\0' !in f
    ensures CStr(NCopy(f + rest, 3)) == f
  {
    NCopyString(f + rest, 3);
    PrefixStops(f, rest);
  }

  /** A NUL-free prefix survives CStr. */
  lemma {:induction false} PrefixStops(f: string, rest: seq<char>)
    requires '\0' !in f
    ensures |CStr(f + rest)| >= |f| && CStr(f + rest)[..|f|] == f
    decreases |f|
  {
    if f != [] {
      assert f[0] in f;
      assert (f + rest)[1..] == f[1..] + rest;
      PrefixStops(f[1..], rest);
    }
  }

  /** getNeighborIndex's answer: the first slot holding id, or -1. */
  function IndexOf(slots: seq<string>, id: string): (i: int)
    ensures -1 <= i < |slots|
    ensures i == -1 <==> id !in slots
    ensures i >= 0 ==> slots[i] == id && forall j :: 0 <= j < i ==> slots[j] != id
  {
    if slots == [] then -1
    else if slots[0] == id then 0
    else var r := IndexOf(slots[1..], id); if r == -1 then -1 else r + 1
  }
}

/**
  The query encoder of dns_builder (kobo_lib.c): a twelve-octet header with
  ID 0x1339, the recursion-desired flag and one question, then the hostname
  as length-prefixed labels, a zero octet, QTYPE A and QCLASS IN.

  The hostname is the octet string before its terminating NUL. It is split at
  every dot as the C loop does: a trailing dot adds no label, two dots in a
  row give an empty label, and a label's length is stored in one octet, so a
  label of 256 octets or more has its length, and the octets copied, taken
  modulo 256.
 */
module Query {
  import opened Wire

  /** The label separator '.'. */
  const Dot: Byte := 0x2E
  /** The fixed transaction ID of every query. */
  const QueryId: nat := 0x1339
  /** Flags of a standard query with recursion desired. */
  const StandardQuery: nat := 0x0100

  // ---------------------------------------------------------------------------
  // Splitting the hostname
  // ---------------------------------------------------------------------------

  /** Position of the first dot in s, or |s| when there is none (strchr, with the end for NULL). */
  function DotIndex(s: seq<Byte>): (k: nat)
    ensures k <= |s|
    ensures forall t :: 0 <= t < k ==> s[t] != Dot
    ensures k < |s| ==> s[k] == Dot
  {
    if |s| == 0 || s[0] == Dot then 0 else 1 + DotIndex(s[1..])
  }

  /**
    The labels the encoder loop emits, in order: the text up to the next dot,
    after which the loop resumes past the dot, until the end of the hostname.
   */
  function Labels(h: seq<Byte>): seq<seq<Byte>>
    decreases |h|
  {
    if |h| == 0 then []
    else
      var k := DotIndex(h);
      if k == |h| then [h] else [h[..k]] + Labels(h[k + 1..])
  }

  /** The labels written back with a dot between each two. */
  function Join(ls: seq<seq<Byte>>): seq<Byte>
  {
    if |ls| == 0 then []
    else if |ls| == 1 then ls[0]
    else ls[0] + [Dot] + Join(ls[1..])
  }

  /** Whether the hostname ends in a dot, which the split drops. */
  predicate TrailingDot(h: seq<Byte>) {
    |h| > 0 && h[|h| - 1] == Dot
  }

  /** One step of the split, at a hostname with a dot at k. */
  lemma LabelsStep(h: seq<Byte>, k: nat)
    requires k < |h| && k == DotIndex(h)
    ensures Labels(h) == [h[..k]] + Labels(h[k + 1..])
  {
  }

  /** Joining a label in front of a non-empty list puts a dot between them. */
  lemma JoinCons(l: seq<Byte>, ls: seq<seq<Byte>>)
    requires |ls| > 0
    ensures Join([l] + ls) == l + [Dot] + Join(ls)
  {
    assert ([l] + ls)[1..] == ls;
  }

  /** No label the split produces holds a dot. */
  lemma {:induction false} LabelsDotFree(h: seq<Byte>)
    ensures forall j :: 0 <= j < |Labels(h)| ==> Dot !in Labels(h)[j]
    decreases |h|
  {
    if |h| > 0 {
      var k := DotIndex(h);
      if k < |h| {
        LabelsStep(h, k);
        LabelsDotFree(h[k + 1..]);
        assert Dot !in h[..k] by {
          forall t | 0 <= t < k ensures h[..k][t] != Dot {
            assert h[..k][t] == h[t];
          }
        }
        var ls := Labels(h);
        forall j | 0 <= j < |ls| ensures Dot !in ls[j] {
          if j > 0 {
            assert ls[j] == Labels(h[k + 1..])[j - 1];
          }
        }
      } else {
        assert Labels(h) == [h];
        assert Dot !in h by {
          forall t | 0 <= t < |h| ensures h[t] != Dot {
          }
        }
      }
    }
  }

  /**
    The split loses nothing but a trailing dot: joining the labels again gives
    the hostname, less its trailing dot, and only the empty hostname has no
    labels.
   */
  lemma {:induction false} LabelsJoin(h: seq<Byte>)
    ensures Join(Labels(h)) + (if TrailingDot(h) then [Dot] else []) == h
    ensures |Labels(h)| == 0 <==> |h| == 0
    decreases |h|
  {
    if |h| > 0 {
      var k := DotIndex(h);
      if k < |h| {
        var rest := h[k + 1..];
        LabelsStep(h, k);
        LabelsJoin(rest);
        if |rest| == 0 {
          calc {
            Join(Labels(h)) + (if TrailingDot(h) then [Dot] else []);
            { assert Labels(h) == [h[..k]]; }
            h[..k] + [Dot];
            { Reassemble(h, k); }
            h;
          }
        } else {
          var tail: seq<Byte> := if TrailingDot(rest) then [Dot] else [];
          calc {
            Join(Labels(h)) + (if TrailingDot(h) then [Dot] else []);
            { assert TrailingDot(h) == TrailingDot(rest); }
            Join(Labels(h)) + tail;
            { JoinCons(h[..k], Labels(rest)); }
            (h[..k] + [Dot] + Join(Labels(rest))) + tail;
            { SeqAssoc(h[..k] + [Dot], Join(Labels(rest)), tail); }
            h[..k] + [Dot] + (Join(Labels(rest)) + tail);
            h[..k] + [Dot] + rest;
            { Reassemble(h, k); }
            h;
          }
        }
      } else {
        assert Labels(h) == [h];
      }
    }
  }

  /** A hostname is the text before its dot at k, the dot, and the text after it. */
  lemma Reassemble(h: seq<Byte>, k: nat)
    requires k < |h| && h[k] == Dot
    ensures h[..k] + [Dot] + h[k + 1..] == h
  {
  }

  /** Concatenation is associative. */
  lemma SeqAssoc(a: seq<Byte>, b: seq<Byte>, c: seq<Byte>)
    ensures (a + b) + c == a + (b + c)
  {
  }

  /** The split of a hostname that is a dot-free label, a dot, and more. */
  lemma LabelsCons(l: seq<Byte>, rest: seq<Byte>)
    requires Dot !in l
    ensures Labels(l + [Dot] + rest) == [l] + Labels(rest)
  {
    var h := l + [Dot] + rest;
    DotIndexOfLabel(l, [Dot] + rest);
    assert h == l + ([Dot] + rest);
    assert h[..|l|] == l;
    assert h[|l| + 1..] == rest;
  }

  /** A dot-free prefix is passed over by the search for a dot. */
  lemma {:induction false} DotIndexOfLabel(l: seq<Byte>, s: seq<Byte>)
    requires Dot !in l && |s| > 0 && s[0] == Dot
    ensures DotIndex(l + s) == |l|
    decreases |l|
  {
    if |l| > 0 {
      assert (l + s)[1..] == l[1..] + s;
      assert l[0] in l;
      DotIndexOfLabel(l[1..], s);
    } else {
      assert l + s == s;
    }
  }

  // ---------------------------------------------------------------------------
  // Encoding
  // ---------------------------------------------------------------------------

  /** The length octet of a label of n octets: n stored in a uint8_t. */
  function LengthOctet(n: nat): Byte {
    (n % 256) as Byte
  }

  /** One label on the wire: its length octet and that many of its octets. */
  function EncodeLabel(l: seq<Byte>): seq<Byte> {
    [LengthOctet(|l|)] + l[..|l| % 256]
  }

  /** The labels on the wire, one after the other. */
  function EncodeLabels(ls: seq<seq<Byte>>): seq<Byte> {
    if |ls| == 0 then [] else EncodeLabel(ls[0]) + EncodeLabels(ls[1..])
  }

  /** The query header: ID, flags, QDCOUNT 1, and zero ANCOUNT, NSCOUNT and ARCOUNT. */
  function QueryHeader(): (hd: seq<Byte>)
    ensures |hd| == HeaderSize
    ensures U16(hd[0], hd[1]) == QueryId && U16(hd[2], hd[3]) == StandardQuery
    ensures U16(hd[4], hd[5]) == 1
    ensures U16(hd[6], hd[7]) == 0 && U16(hd[8], hd[9]) == 0 && U16(hd[10], hd[11]) == 0
  {
    BE16(QueryId) + BE16(StandardQuery) + BE16(1) + [0, 0, 0, 0, 0, 0]
  }

  /** QTYPE A and QCLASS IN in network byte order. */
  function QuestionTrailer(): (t: seq<Byte>)
    ensures |t| == QuestionTail
    ensures U16(t[0], t[1]) == TypeA && U16(t[2], t[3]) == ClassIn
  {
    BE16(TypeA) + BE16(ClassIn)
  }

  /**
    The query for hostname h. The header and the trailer read back as the
    values the encoder writes; the question name ends in a zero octet.
   */
  function BuildQuery(h: seq<Byte>): (q: seq<Byte>)
    ensures |q| >= HeaderSize + 1 + QuestionTail
    ensures q[..HeaderSize] == QueryHeader()
    ensures q[|q| - QuestionTail - 1] == 0
    ensures q[|q| - QuestionTail..] == QuestionTrailer()
  {
    QueryHeader() + EncodeLabels(Labels(h)) + [0] + QuestionTrailer()
  }

  /** The encoded name never takes more than one octet more than the hostname. */
  lemma {:induction false} EncodeLabelsSize(h: seq<Byte>)
    ensures |EncodeLabels(Labels(h))| <= |h| + 1
    decreases |h|
  {
    if |h| > 0 {
      var k := DotIndex(h);
      if k < |h| {
        EncodeLabelsSize(h[k + 1..]);
        assert Labels(h)[1..] == Labels(h[k + 1..]);
      }
    }
  }

  /** Every label is shorter than 256 octets, so its length fits in the length octet. */
  predicate ShortLabels(ls: seq<seq<Byte>>) {
    forall j :: 0 <= j < |ls| ==> |ls[j]| < 256
  }

  /** With short labels, each label costs its length plus one. */
  lemma {:induction false} EncodeShortLabelsSize(ls: seq<seq<Byte>>)
    requires ShortLabels(ls)
    ensures |EncodeLabels(ls)| == |Join(ls)| + (if |ls| == 0 then 0 else 1)
  {
    if |ls| > 0 {
      assert ShortLabels(ls[1..]) by {
        forall j | 0 <= j < |ls[1..]| ensures |ls[1..][j]| < 256 {
          assert ls[1..][j] == ls[j + 1];
        }
      }
      EncodeShortLabelsSize(ls[1..]);
      if |ls| > 1 {
        JoinCons(ls[0], ls[1..]);
        assert [ls[0]] + ls[1..] == ls;
      }
    }
  }

  /**
    With every label shorter than 256 octets, the name takes one octet more
    than the hostname without its trailing dot.
   */
  lemma EncodeLabelsExactSize(h: seq<Byte>)
    requires ShortLabels(Labels(h))
    ensures |EncodeLabels(Labels(h))| == |h| - (if TrailingDot(h) then 1 else 0) + (if |h| == 0 then 0 else 1)
  {
    EncodeShortLabelsSize(Labels(h));
    LabelsJoin(h);
  }

  /** The size of the query: at most eighteen octets more than the hostname. */
  lemma QuerySize(h: seq<Byte>)
    ensures |BuildQuery(h)| == HeaderSize + |EncodeLabels(Labels(h))| + 1 + QuestionTail
    ensures |BuildQuery(h)| <= |h| + HeaderSize + 2 + QuestionTail
    ensures |h| + HeaderSize + 2 + QuestionTail <= MaxMessage ==> |BuildQuery(h)| <= MaxMessage
  {
    EncodeLabelsSize(h);
  }

  // ---------------------------------------------------------------------------
  // The 512-octet query buffer
  // ---------------------------------------------------------------------------

  /** A label of n octets 'a'. */
  function Letters(n: nat): (l: seq<Byte>)
    ensures |l| == n && Dot !in l
  {
    seq(n, _ => 0x61)
  }

  /**
    The encoder writes past the 512-octet buffer the resolver gives it: three
    labels of 200 octets make a 602-octet hostname whose query takes 620 octets.
   */
  lemma QueryOverflowsBuffer()
    ensures var h := Letters(200) + [Dot] + (Letters(200) + [Dot] + Letters(200));
      |h| == 602 && |BuildQuery(h)| == 620 && |BuildQuery(h)| > MaxMessage
  {
    var l := Letters(200);
    var h := l + [Dot] + (l + [Dot] + l);
    ThreeLabels(l, l, l);
    assert ShortLabels(Labels(h)) by {
      ShortRepeated(l);
    }
    EncodeLabelsExactSize(h);
    QuerySize(h);
  }

  /** A non-empty dot-free hostname is one label. */
  lemma SingleLabel(l: seq<Byte>)
    requires Dot !in l && |l| > 0
    ensures Labels(l) == [l]
  {
  }

  /** A hostname ending in a dot-free label has no trailing dot. */
  lemma NoTrailingDot(p: seq<Byte>, l: seq<Byte>)
    requires Dot !in l && |l| > 0
    ensures !TrailingDot(p + l)
  {
    assert (p + l)[|p + l| - 1] == l[|l| - 1];
    assert l[|l| - 1] in l;
  }

  /** Three copies of a label shorter than 256 octets are short labels. */
  lemma ShortRepeated(l: seq<Byte>)
    requires |l| < 256
    ensures ShortLabels([l, l, l])
  {
    var ls := [l, l, l];
    forall j | 0 <= j < |ls| ensures |ls[j]| < 256 {
      assert ls[j] == l;
    }
  }

  /** A hostname of three non-empty dot-free labels splits into exactly those labels. */
  lemma ThreeLabels(a: seq<Byte>, b: seq<Byte>, c: seq<Byte>)
    requires Dot !in a && |a| > 0
    requires Dot !in b && |b| > 0
    requires Dot !in c && |c| > 0
    ensures var h := a + [Dot] + (b + [Dot] + c);
      Labels(h) == [a, b, c] && !TrailingDot(h)
  {
    var t := b + [Dot] + c;
    SingleLabel(c);
    LabelsCons(b, c);
    LabelsCons(a, t);
    assert [a] + ([b] + [c]) == [a, b, c];
    assert a + [Dot] + t == (a + [Dot] + b + [Dot]) + c;
    NoTrailingDot(a + [Dot] + b + [Dot], c);
  }

  /** The query for h fits in the resolver's 512-octet buffer. */
  predicate QueryFits(h: seq<Byte>) {
    |BuildQuery(h)| <= MaxMessage
  }

  /**
    Every hostname of at most 494 octets fits, which covers every name of at
    most 255 octets that section 3.1 of RFC 1035 allows.
   */
  lemma QueryAcceptsShortHostnames(h: seq<Byte>)
    requires |h| <= MaxMessage - HeaderSize - 2 - QuestionTail
    ensures QueryFits(h)
  {
    QuerySize(h);
  }

  // ---------------------------------------------------------------------------
  // The loop as written
  // ---------------------------------------------------------------------------

  /** The labels from cursor p peeled once: the label up to the next dot, and those after it. */
  lemma LabelsFrom(h: seq<Byte>, p: nat, dot: nat, next: nat)
    requires p < |h| && dot == p + DotIndex(h[p..])
    requires next == if dot < |h| then dot + 1 else dot
    ensures dot <= |h| && next <= |h|
    ensures Labels(h[p..]) == [h[p..dot]] + Labels(h[next..])
  {
    var s := h[p..];
    var k := DotIndex(s);
    assert s[..k] == h[p..dot];
    if k < |s| {
      LabelsStep(s, k);
      assert s[k + 1..] == h[next..];
    } else {
      assert Labels(s) == [s];
      assert h[p..dot] == s;
      assert h[next..] == [];
      assert Labels(h[next..]) == [];
      assert [s] + [] == [s];
    }
  }

  /** The encoded labels from cursor p: the next label's encoding, then the rest. */
  lemma EncodeFrom(h: seq<Byte>, p: nat, dot: nat, next: nat)
    requires p < |h| && dot == p + DotIndex(h[p..])
    requires next == if dot < |h| then dot + 1 else dot
    ensures dot <= |h| && next <= |h|
    ensures EncodeLabels(Labels(h[p..])) == EncodeLabel(h[p..dot]) + EncodeLabels(Labels(h[next..]))
  {
    LabelsFrom(h, p, dot, next);
    var ls := Labels(h[p..]);
    assert ls[1..] == Labels(h[next..]);
  }

  /** The label from p to dot, written as the loop writes it: the truncated length, then that many octets. */
  lemma EncodeLabelAt(h: seq<Byte>, p: nat, dot: nat)
    requires p <= dot <= |h|
    ensures p + (dot - p) % 256 <= dot
    ensures EncodeLabel(h[p..dot]) == [((dot - p) % 256) as Byte] + h[p..p + (dot - p) % 256]
  {
  }

  /** One turn of the encoder loop: the label written moves from the still-to-encode part to the buffer. */
  lemma BuilderStep(h: seq<Byte>, p: nat, dot: nat, next: nat, buf: seq<Byte>)
    requires p < |h| && dot == p + DotIndex(h[p..])
    requires next == if dot < |h| then dot + 1 else dot
    ensures p < next <= |h| && p + LengthOctet(dot - p) as nat <= |h|
    ensures buf + EncodeLabels(Labels(h[p..]))
         == buf + ([LengthOctet(dot - p)] + h[p..p + LengthOctet(dot - p) as nat]) + EncodeLabels(Labels(h[next..]))
  {
    EncodeFrom(h, p, dot, next);
    EncodeLabelAt(h, p, dot);
    SeqAssoc(buf, EncodeLabel(h[p..dot]), EncodeLabels(Labels(h[next..])));
  }

  /**
    The label loop of dns_builder, appending to buf: strchr finds the next
    dot (or the end), the length octet is the distance truncated to uint8_t,
    and memcpy copies that many octets. The cursor resumes past the dot.
   */
  method WriteLabels(hostname: seq<Byte>, start: seq<Byte>) returns (buf: seq<Byte>, offset: nat)
    ensures buf == start + EncodeLabels(Labels(hostname))
    ensures offset == |buf|
  {
    buf, offset := start, |start|;
    var p: nat := 0;
    while p < |hostname|
      invariant p <= |hostname|
      invariant offset == |buf|
      invariant buf + EncodeLabels(Labels(hostname[p..])) == start + EncodeLabels(Labels(hostname))
    {
      var dot := p + DotIndex(hostname[p..]);
      var next := if dot < |hostname| then dot + 1 else dot;
      var len := LengthOctet(dot - p);
      BuilderStep(hostname, p, dot, next, buf);
      buf := buf + ([len] + hostname[p..p + len as nat]);
      offset := offset + 1 + len as nat;
      p := next;
    }
    assert hostname[p..] == [];
  }

  /**
    dns_builder, writing into a buffer that grows at the end: the header,
    the labels, the closing zero octet, QTYPE and QCLASS. The result is
    BuildQuery(hostname) and offset is its length.
   */
  method DnsBuilder(hostname: seq<Byte>) returns (buf: seq<Byte>, offset: nat)
    ensures buf == BuildQuery(hostname)
    ensures offset == |buf|
  {
    buf := BE16(QueryId) + BE16(StandardQuery) + BE16(1) + [0, 0, 0, 0, 0, 0];
    buf, offset := WriteLabels(hostname, buf);
    buf := buf + [0] + BE16(TypeA) + BE16(ClassIn);
    offset := offset + 1 + QuestionTail;
  }
}

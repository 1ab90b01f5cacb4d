/**
  The query encoder against its readers. A query built for a hostname whose
  labels are non-empty and fit their length octet can be read back label by
  label, giving the hostname again less a trailing dot. The response decoder's
  name walk consumes exactly the question the encoder writes, and since a
  query announces no answers, decoding one yields no address.
 */
module RoundTrip {
  import opened Wrappers
  import opened Wire
  import opened Query
  import opened Response

  /**
    The labels of an uncompressed name that fills x exactly: length-prefixed
    labels up to a zero octet that is the last octet of x.
   */
  function NameLabels(x: seq<Byte>): Option<seq<seq<Byte>>>
    decreases |x|
  {
    if |x| == 0 then None
    else if x[0] == 0 then (if |x| == 1 then Some([]) else None)
    else
      var n := x[0] as nat;
      if 1 + n > |x| then None
      else
        match NameLabels(x[1 + n..])
        case None => None
        case Some(ls) => Some([x[1..1 + n]] + ls)
  }

  /** Every label is non-empty and its length fits in the length octet. */
  predicate EncodableLabels(ls: seq<seq<Byte>>) {
    forall j :: 0 <= j < |ls| ==> 0 < |ls[j]| < 256
  }

  /** Every label is non-empty and its length octet is not pointer-tagged. */
  predicate LiteralLabels(ls: seq<seq<Byte>>) {
    forall j :: 0 <= j < |ls| ==> 0 < |ls[j]| < 0xC0
  }

  /** The parts of a length octet, a label and what follows, read back by position. */
  lemma Parts(b: Byte, l: seq<Byte>, r: seq<Byte>)
    ensures var x := [b] + l + r;
      x[0] == b && x[1..1 + |l|] == l && x[1 + |l|..] == r
  {
  }

  /** An encoded label, then more octets: the label is the length octet's count of octets after it. */
  lemma EncodeLabelsCons(ls: seq<seq<Byte>>, tail: seq<Byte>)
    requires |ls| > 0 && |ls[0]| < 256
    ensures var x := EncodeLabels(ls) + tail;
      && x[0] as nat == |ls[0]|
      && 1 + |ls[0]| <= |x|
      && x[1..1 + |ls[0]|] == ls[0]
      && x[1 + |ls[0]|..] == EncodeLabels(ls[1..]) + tail
  {
    var l := ls[0];
    var r := EncodeLabels(ls[1..]) + tail;
    assert EncodeLabel(l) == [|l| as Byte] + l by {
      assert l[..|l| % 256] == l;
    }
    SeqAssoc([|l| as Byte] + l, EncodeLabels(ls[1..]), tail);
    Parts(|l| as Byte, l, r);
  }

  /** Reading the labels back inverts the encoding of labels that fit their length octet. */
  lemma {:induction false} NameLabelsOfEncoding(ls: seq<seq<Byte>>)
    requires EncodableLabels(ls)
    ensures NameLabels(EncodeLabels(ls) + [0]) == Some(ls)
    decreases |ls|
  {
    if |ls| == 0 {
      assert EncodeLabels(ls) + [0] == [0];
    } else {
      EncodeLabelsCons(ls, [0]);
      assert EncodableLabels(ls[1..]) by {
        forall j | 0 <= j < |ls[1..]| ensures 0 < |ls[1..][j]| < 256 {
          assert ls[1..][j] == ls[j + 1];
        }
      }
      NameLabelsOfEncoding(ls[1..]);
      assert [ls[0]] + ls[1..] == ls;
    }
  }

  /** The encoding of labels that are not pointer-tagged is one name, as the decoder's walk reads names. */
  lemma {:induction false} EncodingIsWireName(ls: seq<seq<Byte>>)
    requires LiteralLabels(ls)
    ensures WireName(EncodeLabels(ls) + [0])
    decreases |ls|
  {
    if |ls| == 0 {
      assert EncodeLabels(ls) + [0] == [0];
    } else {
      EncodeLabelsCons(ls, [0]);
      assert LiteralLabels(ls[1..]) by {
        forall j | 0 <= j < |ls[1..]| ensures 0 < |ls[1..][j]| < 0xC0 {
          assert ls[1..][j] == ls[j + 1];
        }
      }
      EncodingIsWireName(ls[1..]);
    }
  }

  /** The question name of a query: the octets between the header and QTYPE. */
  function QuestionName(q: seq<Byte>): (x: seq<Byte>)
    requires |q| >= HeaderSize + QuestionTail
    ensures |x| + HeaderSize + QuestionTail == |q|
  {
    q[HeaderSize..|q| - QuestionTail]
  }

  /** The question name of a built query is the encoded labels and the closing zero octet. */
  lemma QuestionNameOfQuery(h: seq<Byte>)
    ensures QuestionName(BuildQuery(h)) == EncodeLabels(Labels(h)) + [0]
  {
    var q := BuildQuery(h);
    var e := EncodeLabels(Labels(h));
    assert q == QueryHeader() + (e + [0]) + QuestionTrailer();
  }

  /**
    Round trip of the encoder: when every label of h is non-empty and shorter
    than 256 octets, the labels read back from the query's question are the
    labels of h, and joining them gives h less its trailing dot.
   */
  lemma QueryRoundTrip(h: seq<Byte>)
    requires EncodableLabels(Labels(h))
    ensures NameLabels(QuestionName(BuildQuery(h))) == Some(Labels(h))
    ensures Join(NameLabels(QuestionName(BuildQuery(h))).value) + (if TrailingDot(h) then [Dot] else []) == h
  {
    QuestionNameOfQuery(h);
    NameLabelsOfEncoding(Labels(h));
    LabelsJoin(h);
  }

  /**
    The decoder reads a query as a well-formed message: when no label of h is
    empty or pointer-tagged, its name walk ends the question exactly at the
    end of the query, and with ANCOUNT zero it finds no address.
   */
  lemma DecodeOwnQuery(h: seq<Byte>)
    requires LiteralLabels(Labels(h))
    ensures QuestionEnd(BuildQuery(h)) == Some(|BuildQuery(h)|)
    ensures AnswerCount(BuildQuery(h)) == 0
    ensures Decode(BuildQuery(h)) == Failure(NoAddress)
  {
    var q := BuildQuery(h);
    QueryQuestionEnd(h);
    QueryAnswerCount(h);
    DecodeAfterQuestion(q, |q|);
  }

  /** The query announces no answers. */
  lemma QueryAnswerCount(h: seq<Byte>)
    ensures AnswerCount(BuildQuery(h)) == 0
  {
    var q := BuildQuery(h);
    assert q[6] == q[..HeaderSize][6] == QueryHeader()[6];
    assert q[7] == q[..HeaderSize][7] == QueryHeader()[7];
  }

  /** The walk over a query's question ends at the end of the query. */
  lemma QueryQuestionEnd(h: seq<Byte>)
    requires LiteralLabels(Labels(h))
    ensures QuestionEnd(BuildQuery(h)) == Some(|BuildQuery(h)|)
  {
    var q := BuildQuery(h);
    QuestionNameOfQuery(h);
    EncodingIsWireName(Labels(h));
    QuestionFillsMessage(q);
  }

  /** A message whose question name is one name ends its question at its last octet. */
  lemma QuestionFillsMessage(q: seq<Byte>)
    requires |q| >= HeaderSize + QuestionTail && WireName(QuestionName(q))
    ensures QuestionEnd(q) == Some(|q|)
  {
    var n := |q| - HeaderSize - QuestionTail;
    assert q[HeaderSize..HeaderSize + n] == QuestionName(q);
    QuestionEndAfterName(q, n);
  }
}

/**
  Properties of the response decoder: the first-match rule, the bound on the
  answer loop, that octets after an answer are never examined, that the walk
  depends only on the octets from the cursor on, and that a compression
  pointer and a spelled-out name are interchangeable.
 */
module ResponseProperties {
  import opened Wrappers
  import opened Wire
  import opened Response

  /** Dropping k octets from the suffix at i is taking the suffix at i + k. */
  lemma SuffixOfSuffix(s: seq<Byte>, i: nat, k: nat)
    requires i + k <= |s|
    ensures s[i..][k..] == s[i + k..]
  {
  }

  /** A slice of the suffix at i is the slice shifted by i. */
  lemma SliceOfSuffix(s: seq<Byte>, i: nat, k: nat, n: nat)
    requires i + k + n <= |s|
    ensures s[i..][k..k + n] == s[i + k..i + k + n]
  {
  }

  /** A slice of the prefix up to q is the same slice of the whole. */
  lemma SliceOfPrefix(s: seq<Byte>, q: nat, i: nat, j: nat)
    requires i <= j <= q <= |s|
    ensures s[..q][i..j] == s[i..j]
  {
  }

  /** A buffer and a longer one that starts with it agree on every slice of the shorter. */
  lemma PrefixSlice(buf: seq<Byte>, longer: seq<Byte>, i: nat, j: nat)
    requires |buf| <= |longer| && longer[..|buf|] == buf && i <= j <= |buf|
    ensures longer[i..j] == buf[i..j]
  {
    SliceOfPrefix(longer, |buf|, i, j);
  }

  /** The three parts of a concatenation, read back by position. */
  lemma Parts3(x: seq<Byte>, y: seq<Byte>, z: seq<Byte>)
    ensures (x + y + z)[..|x|] == x
    ensures (x + y + z)[|x|..|x| + |y|] == y
    ensures (x + y + z)[|x| + |y|..] == z
  {
  }

  /**
    Two suffixes that are equal agree on the ten-octet record prefix at their
    start and on what follows it.
   */
  lemma PrefixFieldsAgree(a: seq<Byte>, ja: nat, b: seq<Byte>, jb: nat)
    requires ja + RecordPrefix <= |a| && jb <= |b| && a[ja..] == b[jb..]
    ensures jb + RecordPrefix <= |b|
    ensures a[ja] == b[jb] && a[ja + 1] == b[jb + 1] && a[ja + 2] == b[jb + 2] && a[ja + 3] == b[jb + 3]
    ensures a[ja + 8] == b[jb + 8] && a[ja + 9] == b[jb + 9]
    ensures a[ja + RecordPrefix..] == b[jb + RecordPrefix..]
  {
    assert |a| - ja == |a[ja..]| == |b| - jb;
    assert a[ja] == a[ja..][0] == b[jb..][0] == b[jb];
    assert a[ja + 1] == a[ja..][1] == b[jb..][1] == b[jb + 1];
    assert a[ja + 2] == a[ja..][2] == b[jb..][2] == b[jb + 2];
    assert a[ja + 3] == a[ja..][3] == b[jb..][3] == b[jb + 3];
    assert a[ja + 8] == a[ja..][8] == b[jb..][8] == b[jb + 8];
    assert a[ja + 9] == a[ja..][9] == b[jb..][9] == b[jb + 9];
    SuffixOfSuffix(a, ja, RecordPrefix);
    SuffixOfSuffix(b, jb, RecordPrefix);
  }

  // ---------------------------------------------------------------------------
  // Locality: the decoder reads only from the cursor on, and only up to where
  // it stops.
  // ---------------------------------------------------------------------------

  /** The name walk depends only on the octets from the cursor on. */
  lemma {:induction false} SkipNameSuffix(a: seq<Byte>, ia: nat, b: seq<Byte>, ib: nat)
    requires ia <= |a| && ib <= |b| && a[ia..] == b[ib..]
    ensures SkipName(a, ia).None? <==> SkipName(b, ib).None?
    ensures SkipName(a, ia).Some? ==> SkipName(a, ia).value + ib == SkipName(b, ib).value + ia
    decreases |a| - ia
  {
    assert |a| - ia == |b| - ib;
    if ia < |a| {
      assert a[ia] == a[ia..][0] == b[ib];
      if a[ia] != 0 && !IsPointer(a[ia]) {
        var m := 1 + a[ia] as nat;
        if ia + m <= |a| {
          assert a[ia + m..] == a[ia..][m..] == b[ib..][m..] == b[ib + m..];
          SkipNameSuffix(a, ia + m, b, ib + m);
        }
      }
    }
  }

  /**
    Two reads agree: both fail, or both give a record with the same TYPE, CLASS
    and RDLENGTH, followed by the same octets from the RDATA on.
   */
  predicate SameRead(a: seq<Byte>, ra: Option<Record>, b: seq<Byte>, rb: Option<Record>) {
    && (ra.None? <==> rb.None?)
    && (ra.Some? && rb.Some? ==>
          && ra.value.rtype == rb.value.rtype
          && ra.value.rclass == rb.value.rclass
          && ra.value.rdlength == rb.value.rdlength
          && ra.value.rdata <= |a| && rb.value.rdata <= |b|
          && a[ra.value.rdata..] == b[rb.value.rdata..])
  }

  /** Reading a record depends only on the octets from the cursor on. */
  lemma ReadRecordSuffix(a: seq<Byte>, ia: nat, b: seq<Byte>, ib: nat)
    requires ia <= |a| && ib <= |b| && a[ia..] == b[ib..]
    ensures SameRead(a, ReadRecord(a, ia), b, ReadRecord(b, ib))
  {
    assert |a| - ia == |b| - ib;
    if ia < |a| {
      assert a[ia] == a[ia..][0] == b[ib];
      SkipNameSuffix(a, ia, b, ib);
      if ReadRecord(a, ia).Some? {
        var j := SkipName(a, ia).value;
        var k := SkipName(b, ib).value;
        assert a[j..] == b[k..] by {
          SuffixOfSuffix(a, ia, j - ia);
          SuffixOfSuffix(b, ib, j - ia);
        }
        PrefixFieldsAgree(a, j, b, k);
        ReadRecordAt(a, ia, j);
        ReadRecordAt(b, ib, k);
      }
    }
  }

  /** Two records with the same fields and the same octets from their RDATA on are judged alike. */
  lemma SameRecordVerdict(a: seq<Byte>, ra: Record, b: seq<Byte>, rb: Record)
    requires ra.rtype == rb.rtype && ra.rclass == rb.rclass && ra.rdlength == rb.rdlength
    requires ra.rdata <= |a| && rb.rdata <= |b| && a[ra.rdata..] == b[rb.rdata..]
    ensures IsAddressRecord(a, ra) <==> IsAddressRecord(b, rb)
    ensures IsAddressRecord(a, ra) ==> Address(a, ra) == Address(b, rb)
    ensures ra.End() <= |a| <==> rb.End() <= |b|
    ensures ra.End() <= |a| ==> a[ra.End()..] == b[rb.End()..]
  {
    assert |a| - ra.rdata == |a[ra.rdata..]| == |b| - rb.rdata;
    if IsAddressRecord(a, ra) {
      SliceOfSuffix(a, ra.rdata, 0, AddressLength);
      SliceOfSuffix(b, rb.rdata, 0, AddressLength);
    }
    if ra.End() <= |a| {
      SuffixOfSuffix(a, ra.rdata, ra.rdlength);
      SuffixOfSuffix(b, rb.rdata, rb.rdlength);
    }
  }

  /** The answer loop reports Truncated where no record can be read, or where the one read cannot be stepped over. */
  lemma ScanAnswersStuck(buf: seq<Byte>, i: nat, count: nat)
    requires count > 0
    requires ReadRecord(buf, i).None? || (!IsAddressRecord(buf, ReadRecord(buf, i).value) && ReadRecord(buf, i).value.End() > |buf|)
    ensures ScanAnswers(buf, i, count) == Failure(Truncated)
  {
  }

  /** The answer loop is decided by the first record read and the octets after its RDATA. */
  lemma {:induction false} ScanAnswersSameRead(a: seq<Byte>, ia: nat, b: seq<Byte>, ib: nat, count: nat)
    requires SameRead(a, ReadRecord(a, ia), b, ReadRecord(b, ib))
    ensures ScanAnswers(a, ia, count) == ScanAnswers(b, ib, count)
    decreases count, 0
  {
    if count > 0 {
      if ReadRecord(a, ia).None? {
        ScanAnswersStuck(a, ia, count);
        ScanAnswersStuck(b, ib, count);
      } else {
        var ra := ReadRecord(a, ia).value;
        var rb := ReadRecord(b, ib).value;
        SameRecordVerdict(a, ra, b, rb);
        if IsAddressRecord(a, ra) {
          ScanAnswersHit(a, ia, count);
          ScanAnswersHit(b, ib, count);
        } else if ra.End() > |a| {
          ScanAnswersStuck(a, ia, count);
          ScanAnswersStuck(b, ib, count);
        } else {
          var c: nat := count - 1;
          ScanAnswersStep(a, ia, count, c);
          ScanAnswersStep(b, ib, count, c);
          ScanAnswersSuffix(a, ra.End(), b, rb.End(), c);
        }
      }
    }
  }

  /** The answer loop depends only on the octets from the cursor on. */
  lemma {:induction false} ScanAnswersSuffix(a: seq<Byte>, ia: nat, b: seq<Byte>, ib: nat, count: nat)
    requires ia <= |a| && ib <= |b| && a[ia..] == b[ib..]
    ensures ScanAnswers(a, ia, count) == ScanAnswers(b, ib, count)
    decreases count, 1
  {
    ReadRecordSuffix(a, ia, b, ib);
    ScanAnswersSameRead(a, ia, b, ib, count);
  }

  /** A walk that stops inside the buffer stops at the same place in any longer buffer. */
  lemma SkipNameExtend(buf: seq<Byte>, longer: seq<Byte>, i: nat)
    requires |buf| <= |longer| && longer[..|buf|] == buf
    requires SkipName(buf, i).Some? && SkipName(buf, i).value < |buf|
    ensures SkipName(longer, i) == SkipName(buf, i)
  {
    var j := SkipName(buf, i).value;
    SkipNameSound(buf, i);
    PrefixSlice(buf, longer, i, j);
    SkipNameComplete(longer, i, j - i);
  }

  /** A record read in full is read the same way in any longer buffer. */
  lemma ReadRecordExtend(buf: seq<Byte>, longer: seq<Byte>, i: nat)
    requires |buf| <= |longer| && longer[..|buf|] == buf
    requires ReadRecord(buf, i).Some?
    ensures ReadRecord(longer, i) == ReadRecord(buf, i)
  {
    assert longer[i] == buf[i];
    SkipNameExtend(buf, longer, i);
    var j := SkipName(buf, i).value;
    assert longer[j] == buf[j] && longer[j + 1] == buf[j + 1] && longer[j + 2] == buf[j + 2] && longer[j + 3] == buf[j + 3];
    assert longer[j + 8] == buf[j + 8] && longer[j + 9] == buf[j + 9];
    ReadRecordAt(buf, i, j);
    ReadRecordAt(longer, i, j);
  }

  /** A scan that found an address, or passed all its records, does the same in any longer buffer. */
  lemma {:induction false} ScanAnswersExtend(buf: seq<Byte>, longer: seq<Byte>, i: nat, count: nat)
    requires |buf| <= |longer| && longer[..|buf|] == buf
    requires ScanAnswers(buf, i, count).Success? || ScanAnswers(buf, i, count) == Failure(NoAddress)
    ensures ScanAnswers(longer, i, count) == ScanAnswers(buf, i, count)
    decreases count
  {
    if count > 0 {
      var rr := ReadRecord(buf, i).value;
      ReadRecordExtend(buf, longer, i);
      if IsAddressRecord(buf, rr) {
        PrefixSlice(buf, longer, rr.rdata, rr.End());
      } else {
        var c: nat := count - 1;
        ScanAnswersExtend(buf, longer, rr.End(), c);
      }
    }
  }

  /**
    Later records are never examined: once the decoder has an answer, or has
    passed all ANCOUNT records, any longer buffer that starts with the same
    octets decodes the same way.
   */
  lemma DecodeIgnoresTrailingOctets(buf: seq<Byte>, longer: seq<Byte>)
    requires |buf| <= |longer| && longer[..|buf|] == buf
    requires Decode(buf).Success? || Decode(buf) == Failure(NoAddress)
    ensures Decode(longer) == Decode(buf)
  {
    assert longer[6] == buf[6] && longer[7] == buf[7];
    var q := QuestionEnd(buf).value;
    SkipNameExtend(buf, longer, HeaderSize);
    assert QuestionEnd(longer) == Some(q);
    DecodeAfterQuestion(buf, q);
    DecodeAfterQuestion(longer, q);
    ScanAnswersExtend(buf, longer, q, AnswerCount(buf));
  }

  // ---------------------------------------------------------------------------
  // Record layout and compression pointers
  // ---------------------------------------------------------------------------

  /**
    Record layout (section 4.1.3 of RFC 1035): after a name of n octets at
    cursor i come TYPE, CLASS, TTL and RDLENGTH. When the ten octets fit, the
    record read has the fields at octets 0-1, 2-3 and 8-9 of that prefix and
    its RDATA right after it. When they do not fit, no record is read.
   */
  lemma ReadRecordLayout(buf: seq<Byte>, i: nat, n: nat)
    requires i + n <= |buf| && WireName(buf[i..i + n])
    ensures i + n + RecordPrefix > |buf| ==> ReadRecord(buf, i).None?
    ensures i + n + RecordPrefix <= |buf| ==>
      var j := i + n;
      ReadRecord(buf, i) == Some(Record(U16(buf[j], buf[j + 1]), U16(buf[j + 2], buf[j + 3]),
                                        U16(buf[j + 8], buf[j + 9]), j + RecordPrefix))
  {
    assert buf[i] == buf[i..i + n][0];
    SkipNameComplete(buf, i, n);
    if i + n + RecordPrefix <= |buf| {
      ReadRecordAt(buf, i, i + n);
    }
  }

  /**
    A record whose name is spelled out and one whose name is a pointer are read
    alike when the same octets follow the two names.
   */
  lemma ReadRecordNameForm(a: seq<Byte>, ia: nat, na: nat, b: seq<Byte>, ib: nat, nb: nat)
    requires ia + na <= |a| && WireName(a[ia..ia + na])
    requires ib + nb <= |b| && WireName(b[ib..ib + nb])
    requires a[ia + na..] == b[ib + nb..]
    ensures SameRead(a, ReadRecord(a, ia), b, ReadRecord(b, ib))
  {
    ReadRecordLayout(a, ia, na);
    ReadRecordLayout(b, ib, nb);
    var ja := ia + na;
    var jb := ib + nb;
    assert |a| - ja == |a[ja..]| == |b| - jb;
    if ja + RecordPrefix <= |a| {
      PrefixFieldsAgree(a, ja, b, jb);
    }
  }

  /**
    Compression transparency: a record whose name is a two-octet compression
    pointer is scanned exactly like one whose name is spelled out in labels,
    when the same octets follow the name. The pointer's target is never read.
   */
  lemma CompressionTransparent(a: seq<Byte>, ia: nat, na: nat, b: seq<Byte>, ib: nat, nb: nat, count: nat)
    requires ia + na <= |a| && WireName(a[ia..ia + na])
    requires ib + nb <= |b| && WireName(b[ib..ib + nb])
    requires a[ia + na..] == b[ib + nb..]
    ensures ScanAnswers(a, ia, count) == ScanAnswers(b, ib, count)
  {
    ReadRecordNameForm(a, ia, na, b, ib, nb);
    ScanAnswersSameRead(a, ia, b, ib, count);
  }

  /** A question that cannot be walked, or runs past the end, leaves the message truncated. */
  lemma DecodeNoQuestion(buf: seq<Byte>)
    requires |buf| >= HeaderSize && QuestionEnd(buf).None?
    ensures Decode(buf) == Failure(Truncated)
  {
  }

  /** Two messages with the same ANCOUNT and the same octets after their questions decode the same way. */
  lemma DecodeSameAnswers(a: seq<Byte>, qa: nat, b: seq<Byte>, qb: nat)
    requires |a| >= HeaderSize && |b| >= HeaderSize && a[6] == b[6] && a[7] == b[7]
    requires QuestionEnd(a) == Some(qa) && QuestionEnd(b) == Some(qb) && a[qa..] == b[qb..]
    ensures Decode(a) == Decode(b)
  {
    DecodeAfterQuestion(a, qa);
    DecodeAfterQuestion(b, qb);
    ScanAnswersSuffix(a, qa, b, qb, AnswerCount(a));
  }

  /**
    Two messages with the same ANCOUNT whose question names differ but are
    followed by the same octets decode the same way.
   */
  lemma DecodeQuestionForm(a: seq<Byte>, na: nat, b: seq<Byte>, nb: nat)
    requires HeaderSize + na <= |a| && HeaderSize + nb <= |b|
    requires a[6] == b[6] && a[7] == b[7]
    requires WireName(a[HeaderSize..HeaderSize + na]) && WireName(b[HeaderSize..HeaderSize + nb])
    requires a[HeaderSize + na..] == b[HeaderSize + nb..]
    ensures Decode(a) == Decode(b)
  {
    var ja := HeaderSize + na;
    var jb := HeaderSize + nb;
    QuestionEndAfterName(a, na);
    QuestionEndAfterName(b, nb);
    assert |a| - ja == |a[ja..]| == |b| - jb;
    if ja + QuestionTail <= |a| {
      SuffixOfSuffix(a, ja, QuestionTail);
      SuffixOfSuffix(b, jb, QuestionTail);
      DecodeSameAnswers(a, ja + QuestionTail, b, jb + QuestionTail);
    } else {
      DecodeNoQuestion(a);
      DecodeNoQuestion(b);
    }
  }

  /**
    Compression transparency for the question: a pointer or a spelled-out
    question name gives the same decoding when the same octets follow it.
   */
  lemma QuestionNameFormIrrelevant(header: seq<Byte>, x: seq<Byte>, y: seq<Byte>, rest: seq<Byte>)
    requires |header| == HeaderSize && WireName(x) && WireName(y)
    ensures Decode(header + x + rest) == Decode(header + y + rest)
  {
    var a := header + x + rest;
    var b := header + y + rest;
    assert a[6] == header[6] == b[6] && a[7] == header[7] == b[7];
    Parts3(header, x, rest);
    Parts3(header, y, rest);
    DecodeQuestionForm(a, |x|, b, |y|);
  }

  /**
    Two messages that agree up to cursor q, where a question ends, and whose
    first answer names differ but are followed by the same octets decode the
    same way.
   */
  lemma DecodeAnswerForm(a: seq<Byte>, b: seq<Byte>, q: nat, na: nat, nb: nat)
    requires HeaderSize + 1 + QuestionTail <= q
    requires q + na <= |a| && q + nb <= |b| && a[..q] == b[..q]
    requires WireName(a[HeaderSize..q - QuestionTail])
    requires WireName(a[q..q + na]) && WireName(b[q..q + nb])
    requires a[q + na..] == b[q + nb..]
    ensures Decode(a) == Decode(b)
  {
    assert a[6] == a[..q][6] == b[6] && a[7] == a[..q][7] == b[7];
    assert a[HeaderSize..q - QuestionTail] == b[HeaderSize..q - QuestionTail] by {
      SliceOfPrefix(a, q, HeaderSize, q - QuestionTail);
      SliceOfPrefix(b, q, HeaderSize, q - QuestionTail);
    }
    QuestionEndAfterName(a, q - QuestionTail - HeaderSize);
    QuestionEndAfterName(b, q - QuestionTail - HeaderSize);
    DecodeAfterQuestion(a, q);
    DecodeAfterQuestion(b, q);
    CompressionTransparent(a, q, na, b, q, nb, AnswerCount(a));
  }

  /**
    Compression transparency for the first answer: after the same header and
    question, a pointer or a spelled-out answer name gives the same decoding.
   */
  lemma AnswerNameFormIrrelevant(header: seq<Byte>, question: seq<Byte>, x: seq<Byte>, y: seq<Byte>, rest: seq<Byte>)
    requires |header| == HeaderSize && |question| > QuestionTail
    requires WireName(question[..|question| - QuestionTail])
    requires WireName(x) && WireName(y)
    ensures Decode(header + question + x + rest) == Decode(header + question + y + rest)
  {
    var hq := header + question;
    var a := hq + x + rest;
    var b := hq + y + rest;
    var q := HeaderSize + |question|;
    Parts3(hq, x, rest);
    Parts3(hq, y, rest);
    assert a[HeaderSize..q - QuestionTail] == question[..|question| - QuestionTail] by {
      SliceOfPrefix(a, q, HeaderSize, q - QuestionTail);
      Parts3(header, question, []);
    }
    DecodeAnswerForm(a, b, q, |x|, |y|);
  }

  // ---------------------------------------------------------------------------
  // The first-match rule
  // ---------------------------------------------------------------------------

  /**
    The records the answer loop passes, in message order, each lying wholly in
    the buffer: the list stops after count records or at the first record that
    cannot be read or stepped over.
   */
  function Answers(buf: seq<Byte>, i: nat, count: nat): (rs: seq<Record>)
    ensures |rs| <= count
    ensures forall k :: 0 <= k < |rs| ==> rs[k].End() <= |buf|
    decreases count
  {
    if count == 0 then []
    else
      match ReadRecord(buf, i)
      case None => []
      case Some(rr) =>
        if rr.End() > |buf| then [] else [rr] + Answers(buf, rr.End(), count - 1)
  }

  /** Record k of rs is the one read where record k - 1 ends, or at i for the first. */
  predicate Chained(buf: seq<Byte>, i: nat, rs: seq<Record>, k: nat)
    requires k < |rs|
  {
    ReadRecord(buf, if k == 0 then i else rs[k - 1].End()) == Some(rs[k])
  }

  /** No record can be read and stepped over at cursor j. */
  predicate Stuck(buf: seq<Byte>, j: nat) {
    match ReadRecord(buf, j)
    case None => true
    case Some(rr) => rr.End() > |buf|
  }

  /** Putting the record read at i in front of a chain from where it ends gives a chain from i. */
  lemma ChainedCons(buf: seq<Byte>, i: nat, rr: Record, rest: seq<Record>, k: nat)
    requires ReadRecord(buf, i) == Some(rr) && k < 1 + |rest|
    requires k > 0 ==> Chained(buf, rr.End(), rest, k - 1)
    ensures Chained(buf, i, [rr] + rest, k)
  {
    var rs := [rr] + rest;
    assert rs[k] == if k == 0 then rr else rest[k - 1];
    if k > 1 {
      assert rs[k - 1] == rest[k - 2];
    }
  }

  /**
    The list of answer records is the chain the loop follows: each is read
    where the previous one ends, each spans at least eleven octets, and when
    the list is short of count the next record cannot be read or stepped over.
   */
  lemma {:induction false} AnswersChain(buf: seq<Byte>, i: nat, count: nat)
    ensures var rs := Answers(buf, i, count);
      && (forall k :: 0 <= k < |rs| ==> Chained(buf, i, rs, k))
      && (|rs| > 0 ==> i + (1 + RecordPrefix) * |rs| <= rs[|rs| - 1].End())
      && (|rs| < count ==> Stuck(buf, if |rs| == 0 then i else rs[|rs| - 1].End()))
    decreases count
  {
    var rs := Answers(buf, i, count);
    if count > 0 && ReadRecord(buf, i).Some? && ReadRecord(buf, i).value.End() <= |buf| {
      var rr := ReadRecord(buf, i).value;
      var c: nat := count - 1;
      var rest := Answers(buf, rr.End(), c);
      AnswersChain(buf, rr.End(), c);
      assert rs == [rr] + rest;
      forall k | 0 <= k < |rs|
        ensures Chained(buf, i, rs, k)
      {
        ChainedCons(buf, i, rr, rest, k);
      }
      if |rest| > 0 {
        assert rs[|rs| - 1] == rest[|rest| - 1];
      }
    }
  }

  /**
    The answer loop passes at most ANCOUNT records, and since every record
    spans at least eleven octets, no more than fit after the cursor: an
    inflated ANCOUNT cannot make it run longer than the buffer allows.
   */
  lemma AnswersBounded(buf: seq<Byte>, i: nat, count: nat)
    ensures |Answers(buf, i, count)| <= count
    ensures i <= |buf| ==> (1 + RecordPrefix) * |Answers(buf, i, count)| <= |buf| - i
  {
    var rs := Answers(buf, i, count);
    AnswersChain(buf, i, count);
    if |rs| > 0 {
      assert rs[|rs| - 1].End() <= |buf|;
    }
  }

  /** Position of the first qualifying record in rs, or |rs| when there is none. */
  function FirstAddress(buf: seq<Byte>, rs: seq<Record>): (k: nat)
    ensures k <= |rs|
    ensures forall m :: 0 <= m < k ==> !IsAddressRecord(buf, rs[m])
    ensures k < |rs| ==> IsAddressRecord(buf, rs[k])
  {
    if |rs| == 0 then 0
    else if IsAddressRecord(buf, rs[0]) then 0
    else 1 + FirstAddress(buf, rs[1..])
  }

  /** The verdict the first-match rule gives for the records rs out of count announced. */
  function FirstMatch(buf: seq<Byte>, rs: seq<Record>, count: nat): Result<Ipv4, DecodeError>
  {
    var k := FirstAddress(buf, rs);
    if k < |rs| then Success(Address(buf, rs[k]))
    else if |rs| == count then Failure(NoAddress)
    else Failure(Truncated)
  }

  /** Putting a non-qualifying record in front does not change the first-match verdict. */
  lemma FirstMatchSkip(buf: seq<Byte>, rr: Record, rest: seq<Record>, count: nat)
    requires !IsAddressRecord(buf, rr)
    ensures FirstMatch(buf, [rr] + rest, count + 1) == FirstMatch(buf, rest, count)
  {
    var rs := [rr] + rest;
    assert rs[1..] == rest;
    var k := FirstAddress(buf, rest);
    assert FirstAddress(buf, rs) == 1 + k;
    if k < |rest| {
      assert rs[1 + k] == rest[k];
    }
  }

  /**
    First-match rule: the answer loop yields the RDATA of the first qualifying
    record among those it passes; with none, it reports NoAddress when all count
    records were passed and Truncated when it stopped early.
   */
  lemma {:induction false} ScanSelectsFirstAddress(buf: seq<Byte>, i: nat, count: nat)
    ensures ScanAnswers(buf, i, count) == FirstMatch(buf, Answers(buf, i, count), count)
    decreases count
  {
    var rs := Answers(buf, i, count);
    if count == 0 || ReadRecord(buf, i).None? || ReadRecord(buf, i).value.End() > |buf| {
      assert rs == [];
    } else {
      var rr := ReadRecord(buf, i).value;
      var j := rr.End();
      var c: nat := count - 1;
      var rest := Answers(buf, j, c);
      assert rs == [rr] + rest;
      if !IsAddressRecord(buf, rr) {
        ScanSelectsFirstAddress(buf, j, c);
        FirstMatchSkip(buf, rr, rest, c);
        ScanAnswersStep(buf, i, count, c);
      }
    }
  }

  /** The decoder applies the first-match rule to the answer records after the question. */
  lemma DecodeSelectsFirstAddress(buf: seq<Byte>)
    requires |buf| >= HeaderSize
    ensures QuestionEnd(buf).None? ==> Decode(buf) == Failure(Truncated)
    ensures QuestionEnd(buf).Some? ==>
      Decode(buf) == FirstMatch(buf, Answers(buf, QuestionEnd(buf).value, AnswerCount(buf)), AnswerCount(buf))
  {
    if QuestionEnd(buf).Some? {
      ScanSelectsFirstAddress(buf, QuestionEnd(buf).value, AnswerCount(buf));
    }
  }
}

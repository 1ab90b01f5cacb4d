/**
  The response decoder of parse_dns_response (kobo_lib.c): one pass over the
  received datagram with a cursor. The cursor skips the header, walks the
  question name, steps over QTYPE and QCLASS, and then visits up to ANCOUNT
  answer records. It stops at the first record of TYPE A, CLASS IN and
  RDLENGTH 4 and yields that record's four RDATA octets.

  Each loop of the C function is a cursor-passing function here. SkipName is
  the name walk, ReadRecord one record up to its RDATA, and ScanAnswers the
  answer loop. Every byte index the functions read is proved in bounds
  wherever it occurs, so out-of-bounds reads are ruled out by the
  well-formedness of the definitions themselves.
 */
module Response {
  import opened Wrappers
  import opened Wire

  /** Why no address came out. The C function returns 0 in all three cases. */
  datatype DecodeError =
    | ShortHeader   // fewer octets than the fixed header
    | Truncated     // a name, record prefix or RDATA skip would run past the end
    | NoAddress     // all ANCOUNT records were consumed without an A record

  /** One answer record as the loop sees it: its three header fields and the cursor of its RDATA. */
  datatype Record = Record(rtype: nat, rclass: nat, rdlength: nat, rdata: nat)
  {
    /** The cursor after the record's RDATA, where the next record starts. */
    function End(): nat {
      rdata + rdlength
    }
  }

  /** ANCOUNT: header octets 6 and 7, most significant first. */
  function AnswerCount(buf: seq<Byte>): (n: nat)
    requires |buf| >= HeaderSize
    ensures n < 0x1_0000
    ensures BE16(n) == buf[6..8]
  {
    BE16OfU16(buf[6], buf[7]);
    U16(buf[6], buf[7])
  }

  /**
    A name as the walk consumes it: literal labels, each a length octet that is
    neither 0 nor pointer-tagged followed by that many octets, ended either by
    a zero octet or by a two-octet compression pointer. Label lengths 64..191
    are accepted as lengths, as the walk does.
   */
  predicate WireName(x: seq<Byte>)
    decreases |x|
  {
    && |x| > 0
    && if x[0] == 0 then |x| == 1
       else if IsPointer(x[0]) then |x| == 2
       else 1 + x[0] as nat < |x| && WireName(x[1 + x[0] as nat..])
  }

  /**
    The name walk from cursor i. Some(j) is the cursor after the walk and None
    is the early failure of a label that runs past the end. The walk also stops
    without failing when the cursor reaches the end, so j = |buf| does not by
    itself mean a complete name. After a pointer in the last octet j is |buf| + 1.
   */
  function SkipName(buf: seq<Byte>, i: nat): (r: Option<nat>)
    ensures r.Some? ==> i <= r.value
    ensures r.Some? && i < |buf| ==> i < r.value <= |buf| + 1
    ensures r.None? ==> i < |buf|
    decreases |buf| - i
  {
    if i >= |buf| then Some(i)
    else if buf[i] == 0 then Some(i + 1)
    else if IsPointer(buf[i]) then Some(i + 2)
    else
      var next := i + 1 + buf[i] as nat;
      if next > |buf| then None else SkipName(buf, next)
  }

  /** Completeness of the walk: a name at the cursor is consumed exactly, whatever follows it. */
  lemma {:induction false} SkipNameComplete(buf: seq<Byte>, i: nat, n: nat)
    requires i + n <= |buf| && WireName(buf[i..i + n])
    ensures SkipName(buf, i) == Some(i + n)
    decreases n
  {
    var x := buf[i..i + n];
    assert buf[i] == x[0];
    if x[0] != 0 && !IsPointer(x[0]) {
      var m := 1 + x[0] as nat;
      assert x[m..] == buf[i + m..i + n];
      SkipNameComplete(buf, i + m, n - m);
    }
  }

  /** Soundness of the walk: when it stops inside the buffer, it has consumed exactly one name. */
  lemma {:induction false} SkipNameSound(buf: seq<Byte>, i: nat)
    requires SkipName(buf, i).Some? && SkipName(buf, i).value < |buf|
    ensures WireName(buf[i..SkipName(buf, i).value])
    decreases |buf| - i
  {
    var j := SkipName(buf, i).value;
    if buf[i] != 0 && !IsPointer(buf[i]) {
      var next := i + 1 + buf[i] as nat;
      SkipNameSound(buf, next);
      assert buf[i..j][1 + buf[i] as nat..] == buf[next..j];
    }
  }

  /**
    The end of an answer name at cursor i: a pointer-tagged first octet is
    taken as a two-octet pointer at once, anything else goes to the name walk.
   */
  function AnswerNameEnd(buf: seq<Byte>, i: nat): (r: Option<nat>)
    requires i < |buf|
    ensures r == SkipName(buf, i)
  {
    if IsPointer(buf[i]) then Some(i + 2) else SkipName(buf, i)
  }

  /** An answer name that ends inside the buffer is one name. */
  lemma AnswerNameSound(buf: seq<Byte>, i: nat)
    requires i < |buf| && AnswerNameEnd(buf, i).Some? && AnswerNameEnd(buf, i).value < |buf|
    ensures WireName(buf[i..AnswerNameEnd(buf, i).value])
  {
    SkipNameSound(buf, i);
  }

  /**
    One answer record from cursor i, up to its RDATA: the name (a pointer is
    taken as two octets without looking further), then the ten-octet prefix of
    TYPE, CLASS, TTL and RDLENGTH, whose TTL is ignored. None is a cursor at or
    past the end, or a name or prefix that runs past the end.
   */
  function ReadRecord(buf: seq<Byte>, i: nat): (r: Option<Record>)
    ensures r.Some? ==> i + 1 + RecordPrefix <= r.value.rdata <= |buf|
    ensures r.Some? ==> r.value.rtype < 0x1_0000 && r.value.rclass < 0x1_0000 && r.value.rdlength < 0x1_0000
  {
    if i >= |buf| then None
    else
      match AnswerNameEnd(buf, i)
      case None => None
      case Some(j) =>
        if j + RecordPrefix > |buf| then None
        else
          Some(Record(U16(buf[j], buf[j + 1]), U16(buf[j + 2], buf[j + 3]), U16(buf[j + 8], buf[j + 9]), j + RecordPrefix))
  }

  /** Once the answer name ends at j with room for the prefix, the record's fields are read at j. */
  lemma ReadRecordAt(buf: seq<Byte>, i: nat, j: nat)
    requires i < |buf| && AnswerNameEnd(buf, i) == Some(j) && j + RecordPrefix <= |buf|
    ensures ReadRecord(buf, i)
         == Some(Record(U16(buf[j], buf[j + 1]), U16(buf[j + 2], buf[j + 3]), U16(buf[j + 8], buf[j + 9]), j + RecordPrefix))
  {
  }

  /** The record qualifies: TYPE A, CLASS IN, RDLENGTH 4, and the four octets are in the buffer. */
  predicate IsAddressRecord(buf: seq<Byte>, rr: Record) {
    && rr.rtype == TypeA
    && rr.rclass == ClassIn
    && rr.rdlength == AddressLength
    && rr.rdata + AddressLength <= |buf|
  }

  /** The four RDATA octets of a qualifying record. */
  function Address(buf: seq<Byte>, rr: Record): (a: Ipv4)
    requires IsAddressRecord(buf, rr)
    ensures a == buf[rr.rdata..rr.End()]
  {
    buf[rr.rdata..rr.rdata + AddressLength]
  }

  /**
    The answer loop from cursor i with count records left to visit. A record
    that does not qualify is stepped over by its RDLENGTH.
   */
  function ScanAnswers(buf: seq<Byte>, i: nat, count: nat): (r: Result<Ipv4, DecodeError>)
    ensures r.Failure? ==> r.error != ShortHeader
    decreases count
  {
    if count == 0 then Failure(NoAddress)
    else
      match ReadRecord(buf, i)
      case None => Failure(Truncated)
      case Some(rr) =>
        if IsAddressRecord(buf, rr) then Success(Address(buf, rr))
        else if rr.End() > |buf| then Failure(Truncated)
        else ScanAnswers(buf, rr.End(), count - 1)
  }

  /** One turn of the answer loop over a record it steps over: the loop goes on after its RDATA. */
  lemma ScanAnswersStep(buf: seq<Byte>, i: nat, count: nat, c: nat)
    requires count == c + 1 && ReadRecord(buf, i).Some?
    requires !IsAddressRecord(buf, ReadRecord(buf, i).value) && ReadRecord(buf, i).value.End() <= |buf|
    ensures ScanAnswers(buf, i, count) == ScanAnswers(buf, ReadRecord(buf, i).value.End(), c)
  {
  }

  /** One turn of the answer loop over a qualifying record: the loop yields its address. */
  lemma ScanAnswersHit(buf: seq<Byte>, i: nat, count: nat)
    requires count > 0 && ReadRecord(buf, i).Some? && IsAddressRecord(buf, ReadRecord(buf, i).value)
    ensures ScanAnswers(buf, i, count) == Success(Address(buf, ReadRecord(buf, i).value))
  {
  }

  /** The cursor after the question: the name walk from the end of the header, then QTYPE and QCLASS. */
  function QuestionEnd(buf: seq<Byte>): (r: Option<nat>)
    requires |buf| >= HeaderSize
    ensures r.Some? ==> HeaderSize + 1 + QuestionTail <= r.value <= |buf|
    ensures r.Some? ==> WireName(buf[HeaderSize..r.value - QuestionTail])
  {
    match SkipName(buf, HeaderSize)
    case None => None
    case Some(j) =>
      if j + QuestionTail > |buf| then None
      else
        SkipNameSound(buf, HeaderSize);
        Some(j + QuestionTail)
  }

  /** A question name of n octets after the header is followed by QTYPE and QCLASS, if they fit. */
  lemma QuestionEndAfterName(buf: seq<Byte>, n: nat)
    requires HeaderSize + n <= |buf| && WireName(buf[HeaderSize..HeaderSize + n])
    ensures HeaderSize + n + QuestionTail <= |buf| ==> QuestionEnd(buf) == Some(HeaderSize + n + QuestionTail)
    ensures HeaderSize + n + QuestionTail > |buf| ==> QuestionEnd(buf).None?
  {
    SkipNameComplete(buf, HeaderSize, n);
  }

  /** The whole decoder: a too-short buffer is refused before any octet is read. */
  function Decode(buf: seq<Byte>): (r: Result<Ipv4, DecodeError>)
    ensures |buf| < HeaderSize <==> r == Failure(ShortHeader)
  {
    if |buf| < HeaderSize then Failure(ShortHeader)
    else
      match QuestionEnd(buf)
      case None => Failure(Truncated)
      case Some(q) => ScanAnswers(buf, q, AnswerCount(buf))
  }

  /** Once the question ends at q, the verdict is the answer loop's from q. */
  lemma DecodeAfterQuestion(buf: seq<Byte>, q: nat)
    requires |buf| >= HeaderSize && QuestionEnd(buf) == Some(q)
    ensures Decode(buf) == ScanAnswers(buf, q, AnswerCount(buf))
  {
  }

}

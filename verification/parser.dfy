/**
  parse_dns_response (kobo_lib.c) as the C function runs it: one cursor, a
  name-walk loop that breaks on a zero octet or a compression pointer, and a
  counted loop over the answers that returns at the first A record. Each
  early `return 0` is a return with found false. The method is proved to
  compute exactly what the cursor-passing decoder Response.Decode defines.
 */
module Parser {
  import opened Wrappers
  import opened Wire
  import opened Response

  /**
    The name-walk loop from cursor start: a zero octet ends the name, a
    pointer-tagged octet is a two-octet pointer, anything else is a label
    length to step over. ok is false when a label runs past the end.
   */
  method WalkName(buf: seq<Byte>, start: nat) returns (ok: bool, i: nat)
    ensures ok <==> SkipName(buf, start).Some?
    ensures ok ==> i == SkipName(buf, start).value
  {
    i := start;
    while i < |buf|
      invariant SkipName(buf, i) == SkipName(buf, start)
      decreases |buf| - i
    {
      MaskedPointerTag(buf[i]);
      if buf[i] == 0 {
        return true, i + 1;
      } else if (buf[i] as bv8) & 0xC0 == 0xC0 {
        return true, i + 2;
      } else {
        var labelLength := buf[i] as nat;
        i := i + 1 + labelLength;
        if i > |buf| {
          return false, i;
        }
      }
    }
    ok := true;
  }

  /**
    One turn of the answer loop up to the RDATA: the end-of-buffer check, the
    name (a pointer-tagged first octet is taken as a pointer at once), and the
    ten-octet prefix whose TYPE, CLASS and RDLENGTH are read. ok is false where
    the C function returns 0.
   */
  method ReadAnswer(response: seq<Byte>, i: nat) returns (ok: bool, rtype: nat, rclass: nat, rdlength: nat, rdata: nat)
    ensures ok <==> ReadRecord(response, i).Some?
    ensures ok ==> ReadRecord(response, i) == Some(Record(rtype, rclass, rdlength, rdata))
  {
    if i >= |response| {
      return false, 0, 0, 0, 0;
    }
    var j: nat;
    MaskedPointerTag(response[i]);
    if (response[i] as bv8) & 0xC0 == 0xC0 {
      j := i + 2;
    } else {
      ok, j := WalkName(response, i);
      if !ok {
        return false, 0, 0, 0, 0;
      }
    }
    if j + RecordPrefix > |response| {
      return false, 0, 0, 0, 0;
    }
    rtype := U16(response[j], response[j + 1]);
    rclass := U16(response[j + 2], response[j + 3]);
    rdlength := U16(response[j + 8], response[j + 9]);
    ReadRecordAt(response, i, j);
    return true, rtype, rclass, rdlength, j + RecordPrefix;
  }

  /**
    The C function, with the dotted text that inet_ntop writes to ip_out
    replaced by the four address octets. found is the C function's return
    value 1; ip is meaningful only then.
   */
  method ParseDnsResponse(response: seq<Byte>) returns (found: bool, ip: seq<Byte>)
    ensures found <==> Decode(response).Success?
    ensures found ==> ip == Decode(response).value
  {
    if |response| < HeaderSize {
      return false, [];
    }
    ghost var verdict := Decode(response);
    var answerCount := U16(response[6], response[7]);
    var ok: bool, i: nat := WalkName(response, HeaderSize);
    QuestionTurn(response, ok, i);
    if !ok || i + QuestionTail > |response| {
      return false, [];
    }
    i := i + QuestionTail;
    var a: nat := 0;
    ghost var left: nat := answerCount;
    while a < answerCount
      invariant a <= answerCount && left == answerCount - a
      invariant ScanAnswers(response, i, left) == verdict
    {
      var stop, next;
      stop, found, ip, next := AnswerStep(response, i, left);
      if stop {
        return found, ip;
      }
      i := next;
      a := a + 1;
      left := left - 1;
    }
    return false, [];
  }

  /**
    One turn of the answer loop: read the record, return 1 with its address
    when it is an A record of class IN with four octets of RDATA that fit
    (IsAddressRecord, the test of kobo_lib.c line 91), return 0
    when it cannot be read or its RDATA runs past the end, and otherwise move
    the cursor past the RDATA. stop is true where the C function returns.
   */
  method AnswerStep(response: seq<Byte>, i: nat, ghost left: nat)
    returns (stop: bool, found: bool, ip: seq<Byte>, next: nat)
    requires left > 0
    ensures stop ==> (found <==> ScanAnswers(response, i, left).Success?)
    ensures stop && found ==> ip == ScanAnswers(response, i, left).value
    ensures !stop ==> ScanAnswers(response, i, left) == ScanAnswers(response, next, left - 1)
  {
    var ok, rtype, rclass, rdlength, rdata := ReadAnswer(response, i);
    var rr := Record(rtype, rclass, rdlength, rdata);
    AnswerTurn(response, i, left, ok, rr);
    if !ok {
      return true, false, [], 0;
    }
    if IsAddressRecord(response, rr) {
      return true, true, response[rr.rdata..rr.rdata + AddressLength], 0;
    }
    if rr.End() > |response| {
      return true, false, [], 0;
    }
    return false, false, [], rr.End();
  }

  /**
    The question part of the C function: a name walk that fails, or QTYPE and
    QCLASS that do not fit, is a failure; otherwise the verdict is the answer
    loop's from after QCLASS with the ANCOUNT read from octets 6 and 7.
   */
  lemma QuestionTurn(response: seq<Byte>, ok: bool, j: nat)
    requires |response| >= HeaderSize
    requires ok <==> SkipName(response, HeaderSize).Some?
    requires ok ==> j == SkipName(response, HeaderSize).value
    ensures !ok || j + QuestionTail > |response| ==> Decode(response).Failure?
    ensures ok && j + QuestionTail <= |response| ==>
      Decode(response) == ScanAnswers(response, j + QuestionTail, U16(response[6], response[7]))
  {
    if ok && j + QuestionTail <= |response| {
      DecodeAfterQuestion(response, j + QuestionTail);
    }
  }

  /**
    The verdict of one turn of the answer loop, by the C function's branches:
    no record read and RDATA that runs past the end are failures, a qualifying
    record is the address, and any other record is stepped over.
   */
  lemma AnswerTurn(response: seq<Byte>, i: nat, left: nat, ok: bool, rr: Record)
    requires left > 0
    requires ok <==> ReadRecord(response, i).Some?
    requires ok ==> ReadRecord(response, i) == Some(rr)
    ensures !ok ==> ScanAnswers(response, i, left).Failure?
    ensures ok && IsAddressRecord(response, rr) ==>
      ScanAnswers(response, i, left) == Success(response[rr.rdata..rr.rdata + AddressLength])
    ensures ok && !IsAddressRecord(response, rr) && rr.End() > |response| ==>
      ScanAnswers(response, i, left).Failure?
    ensures ok && !IsAddressRecord(response, rr) && rr.End() <= |response| ==>
      ScanAnswers(response, i, left) == ScanAnswers(response, rr.End(), left - 1)
  {
    if ok {
      if IsAddressRecord(response, rr) {
        ScanAnswersHit(response, i, left);
      } else if rr.End() <= |response| {
        ScanAnswersStep(response, i, left, left - 1);
      }
    }
  }
}

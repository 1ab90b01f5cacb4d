/**
  Concrete messages and what the model proves about them: the query for
  example.com, a reply with one A record under a compressed name, a reply
  whose first answer is a CNAME, a reply cut short inside its answer, and a
  reply announcing more answers than it carries.
 */
module Scenarios {
  import opened Wrappers
  import opened Wire
  import opened Query
  import opened Response

  /** "example" and "com" in ASCII. */
  const Example: seq<Byte> := [0x65, 0x78, 0x61, 0x6D, 0x70, 0x6C, 0x65]
  const Com: seq<Byte> := [0x63, 0x6F, 0x6D]

  /** The name example.com on the wire: two labels and the closing zero octet. */
  const ExampleName: seq<Byte> := [7] + Example + [3] + Com + [0]

  /** The question for example.com, QTYPE A, QCLASS IN. */
  const ExampleQuestion: seq<Byte> := ExampleName + [0x00, 0x01, 0x00, 0x01]

  /** The header of a reply with recursion available and ANCOUNT answers. */
  function ReplyHeader(ancount: Byte): (hd: seq<Byte>)
    ensures |hd| == HeaderSize && hd[6] == 0 && hd[7] == ancount
  {
    [0x13, 0x39, 0x81, 0x80, 0x00, 0x01, 0x00, ancount, 0x00, 0x00, 0x00, 0x00]
  }

  /** An answer named by a pointer to offset 12, CLASS IN, TTL 3600, with the given TYPE and RDATA. */
  function PointerAnswer(rtype: Byte, rdata: seq<Byte>): (a: seq<Byte>)
    requires |rdata| < 256
    ensures |a| == 12 + |rdata|
    ensures IsPointer(a[0]) && a[2] == 0 && a[3] == rtype && a[4] == 0 && a[5] == 1
    ensures a[10] == 0 && a[11] as nat == |rdata| && a[12..] == rdata
  {
    [0xC0, 0x0C, 0x00, rtype, 0x00, 0x01, 0x00, 0x00, 0x0E, 0x10, 0x00, |rdata| as Byte] + rdata
  }

  /** example.com is one name as the walk reads names. */
  lemma ExampleNameIsWireName()
    ensures WireName(ExampleName)
  {
    var x := ExampleName;
    assert x[8..] == [3] + Com + [0];
    assert x[8..][4..] == [0];
  }

  /** Any reply that starts with a header and the example question ends its question at octet 29. */
  lemma ExampleQuestionEnd(hd: seq<Byte>, rest: seq<Byte>)
    requires |hd| == HeaderSize
    ensures QuestionEnd(hd + ExampleQuestion + rest) == Some(29)
  {
    var m := hd + ExampleQuestion + rest;
    assert m[HeaderSize..HeaderSize + 13] == ExampleName;
    ExampleNameIsWireName();
    QuestionEndAfterName(m, 13);
  }

  /** A record laid out by PointerAnswer at cursor i is read with its TYPE, CLASS IN and RDLENGTH. */
  lemma PointerRecord(buf: seq<Byte>, i: nat, rtype: Byte, rdata: seq<Byte>)
    requires |rdata| < 256 && i + 12 + |rdata| <= |buf| && buf[i..i + 12 + |rdata|] == PointerAnswer(rtype, rdata)
    ensures ReadRecord(buf, i) == Some(Record(rtype as nat, ClassIn, |rdata|, i + 12))
  {
    var a := PointerAnswer(rtype, rdata);
    assert buf[i] == a[0] && buf[i + 2] == a[2] && buf[i + 3] == a[3];
    assert buf[i + 4] == a[4] && buf[i + 5] == a[5] && buf[i + 10] == a[10] && buf[i + 11] == a[11];
    ReadRecordAt(buf, i, i + 2);
  }

  /** A CNAME answer whose RDATA is a pointer to the question name. */
  const Cname: seq<Byte> := PointerAnswer(5, [0xC0, 0x0C])

  /** The loop steps over a CNAME right after the example question. */
  lemma CnameStepped(hd: seq<Byte>, rest: seq<Byte>, c: nat)
    requires |hd| == HeaderSize
    ensures var m := hd + ExampleQuestion + Cname + rest;
      ScanAnswers(m, 29, c + 1) == ScanAnswers(m, 43, c)
  {
    var m := hd + ExampleQuestion + Cname + rest;
    assert m[29..43] == Cname;
    PointerRecord(m, 29, 5, [0xC0, 0x0C]);
    ScanAnswersStep(m, 29, c + 1, c);
  }

  /** An A record for addr at cursor i is taken, whatever the count left. */
  lemma AddressAt(buf: seq<Byte>, i: nat, addr: seq<Byte>, c: nat)
    requires |addr| == AddressLength && i + 16 <= |buf| && buf[i..i + 16] == PointerAnswer(1, addr)
    ensures ScanAnswers(buf, i, c + 1) == Success(addr)
  {
    PointerRecord(buf, i, 1, addr);
    ScanAnswersHit(buf, i, c + 1);
    assert buf[i + 12..i + 16] == addr;
  }

  /** A reply with one A record for 93.184.216.34 under a compressed name yields that address. */
  lemma SingleAnswer()
    ensures Decode(ReplyHeader(1) + ExampleQuestion + PointerAnswer(1, [93, 184, 216, 34]))
         == Success([93, 184, 216, 34])
  {
    var a := PointerAnswer(1, [93, 184, 216, 34]);
    var m := ReplyHeader(1) + ExampleQuestion + a;
    ExampleQuestionEnd(ReplyHeader(1), a);
    DecodeAfterQuestion(m, 29);
    assert AnswerCount(m) == 1;
    assert m[29..45] == a;
    AddressAt(m, 29, [93, 184, 216, 34], 0);
  }

  /** The first qualifying record wins: the CNAME is stepped over, and the second A record is never read. */
  lemma CnameThenAddresses()
    ensures Decode(ReplyHeader(3) + ExampleQuestion + Cname
                   + PointerAnswer(1, [1, 2, 3, 4]) + PointerAnswer(1, [5, 6, 7, 8]))
         == Success([1, 2, 3, 4])
  {
    var a2 := PointerAnswer(1, [1, 2, 3, 4]);
    var rest := a2 + PointerAnswer(1, [5, 6, 7, 8]);
    var m := ReplyHeader(3) + ExampleQuestion + Cname + rest;
    assert m == ReplyHeader(3) + ExampleQuestion + Cname + a2 + PointerAnswer(1, [5, 6, 7, 8]);
    assert m == ReplyHeader(3) + ExampleQuestion + (Cname + rest);
    ExampleQuestionEnd(ReplyHeader(3), Cname + rest);
    DecodeAfterQuestion(m, 29);
    assert AnswerCount(m) == 3;
    CnameStepped(ReplyHeader(3), rest, 2);
    assert m[43..59] == a2;
    AddressAt(m, 43, [1, 2, 3, 4], 1);
  }

  /** An A record whose RDATA is cut short after two octets yields no address. */
  lemma CutShortAnswer()
    ensures Decode(ReplyHeader(1) + ExampleQuestion + PointerAnswer(1, [93, 184, 216, 34])[..14])
         == Failure(Truncated)
  {
    var a := PointerAnswer(1, [93, 184, 216, 34])[..14];
    var m := ReplyHeader(1) + ExampleQuestion + a;
    ExampleQuestionEnd(ReplyHeader(1), a);
    DecodeAfterQuestion(m, 29);
    assert AnswerCount(m) == 1;
    assert m[29..] == a;
    ReadRecordAt(m, 29, 31);
    assert ReadRecord(m, 29) == Some(Record(1, 1, 4, 41));
  }

  /** Two answers announced, one CNAME present: the loop runs out of octets. */
  lemma MissingAnswer()
    ensures Decode(ReplyHeader(2) + ExampleQuestion + Cname) == Failure(Truncated)
  {
    var m := ReplyHeader(2) + ExampleQuestion + Cname;
    assert m == ReplyHeader(2) + ExampleQuestion + Cname + [];
    ExampleQuestionEnd(ReplyHeader(2), Cname);
    DecodeAfterQuestion(m, 29);
    assert AnswerCount(m) == 2;
    CnameStepped(ReplyHeader(2), [], 1);
  }

  /** One CNAME announced and present: every record was passed without an address. */
  lemma OnlyCname()
    ensures Decode(ReplyHeader(1) + ExampleQuestion + Cname) == Failure(NoAddress)
  {
    var m := ReplyHeader(1) + ExampleQuestion + Cname;
    assert m == ReplyHeader(1) + ExampleQuestion + Cname + [];
    ExampleQuestionEnd(ReplyHeader(1), Cname);
    DecodeAfterQuestion(m, 29);
    assert AnswerCount(m) == 1;
    CnameStepped(ReplyHeader(1), [], 0);
  }

  /** The hostname example.com splits into its two labels. */
  lemma ExampleLabels()
    ensures Labels(Example + [Dot] + Com) == [Example, Com]
  {
    LabelsCons(Example, Com);
    assert DotIndex(Com) == 3;
  }

  /** The query for example.com: 29 octets, laid out as sections 4.1.1 and 4.1.2 of RFC 1035 describe. */
  lemma ExampleQuery()
    ensures BuildQuery(Example + [Dot] + Com)
         == [0x13, 0x39, 0x01, 0x00, 0x00, 0x01, 0x00, 0x00, 0x00, 0x00, 0x00, 0x00] + ExampleQuestion
    ensures |BuildQuery(Example + [Dot] + Com)| == 29
  {
    ExampleLabels();
    assert EncodeLabel(Example) == [7] + Example by {
      assert Example[..7] == Example;
    }
    assert EncodeLabel(Com) == [3] + Com by {
      assert Com[..3] == Com;
    }
    assert EncodeLabels([Com]) == EncodeLabel(Com) + EncodeLabels([]);
    assert [Example, Com][1..] == [Com];
    assert EncodeLabels([Example, Com]) == [7] + Example + [3] + Com;
    var hd := QueryHeader();
    assert hd == [0x13, 0x39, 0x01, 0x00, 0x00, 0x01, 0x00, 0x00, 0x00, 0x00, 0x00, 0x00] by {
      assert hd[0] == 0x13 && hd[1] == 0x39 && hd[2] == 0x01 && hd[3] == 0 && hd[4] == 0 && hd[5] == 1;
      assert hd[6] == 0 && hd[7] == 0 && hd[8] == 0 && hd[9] == 0 && hd[10] == 0 && hd[11] == 0;
    }
    assert QuestionTrailer() == [0x00, 0x01, 0x00, 0x01];
  }
}

/** The parts of a decoded DNS message the packet handler reads and writes,
    after the message model of the `trust_dns_proto` crate. Names are kept in
    their textual form; the wire codec itself is not modelled. */
module Dns {
  import opened Common

  datatype MessageType = Query | Response

  datatype OpCode = OpQuery | OpStatus | OpNotify | OpUpdate

  /** Response codes, with their 4-bit RCODE values from section 4.1.1 of RFC 1035. */
  datatype ResponseCode =
    | NoError | FormErr | ServFail | NXDomain | NotImp | Refused
    | Unknown(code: U16)

  /** The numeric RCODE carried in the header. */
  function ResponseCodeValue(r: ResponseCode): (v: U16)
    ensures r.Unknown? ==> v == r.code
    ensures !r.Unknown? ==> v <= 5
    ensures r == NoError <==> !r.Unknown? && v == 0
    ensures r == ServFail <==> !r.Unknown? && v == 2
  {
    match r
    case NoError => 0
    case FormErr => 1
    case ServFail => 2
    case NXDomain => 3
    case NotImp => 4
    case Refused => 5
    case Unknown(c) => c
  }

  /** A response code in canonical form: `Unknown` only for values without a name. */
  predicate CanonicalResponseCode(r: ResponseCode)
  {
    r.Unknown? ==> r.code > 5
  }

  /** Distinct canonical codes have distinct values, so a header with RCODE
      2 carries exactly `ServFail`. */
  lemma ResponseCodeValueInjective(r: ResponseCode, r': ResponseCode)
    requires CanonicalResponseCode(r) && CanonicalResponseCode(r')
    ensures ResponseCodeValue(r) == ResponseCodeValue(r') ==> r == r'
  {
  }

  /** Query and record types; only `A` and `ANY` matter to the handler. */
  datatype RecordType = A | AAAA | ANY | CNAME | MX | NS | TXT | OtherType(code: U16)

  /** An entry of the question section: the name as `Name::to_utf8` renders it,
      and the query type. */
  datatype Question = Question(name: string, queryType: RecordType)

  datatype RData = AData(address: Ipv4) | OtherData(recordType: RecordType, data: Bytes)

  /** A resource record of class IN. */
  datatype Record = Record(name: string, ttl: nat, rdata: RData)

  /** The type of a record is the type of its data, as `Record::from_rdata` sets it. */
  function RecordTypeOf(r: Record): (t: RecordType)
    ensures r.rdata.AData? ==> t == A
  {
    match r.rdata
    case AData(_) => A
    case OtherData(t, _) => t
  }

  datatype Message = Message(
    id: U16,
    messageType: MessageType,
    opCode: OpCode,
    authoritative: bool,
    recursionDesired: bool,
    responseCode: ResponseCode,
    queries: seq<Question>,
    answers: seq<Record>)

  /** `Message::new`: id 0, a standard query with no flags, no error and empty sections. */
  function NewMessage(): (m: Message)
    ensures m.id == 0 && m.messageType == Query && m.opCode == OpQuery
    ensures !m.authoritative && !m.recursionDesired
    ensures ResponseCodeValue(m.responseCode) == 0
    ensures m.queries == [] && m.answers == []
  {
    Message(0, Query, OpQuery, false, false, NoError, [], [])
  }
}

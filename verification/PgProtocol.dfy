/** The messages of the PostgreSQL Frontend/Backend Protocol 3.0 that matter
    here, by name, and the bytes they are written as ("Message Formats"). */
module PgProtocol {
  import opened Bytes
  import opened PgCodec
  import opened PgFields

  /** What the server asks of a client that logs in. */
  datatype AuthRequest =
    | AuthenticationOk
    | KerberosV5
    | CleartextPassword
    | MD5Password(salt: text)
    | GSS
    | GSSContinue(data: text)
    | SSPI
    | SASL(mechanisms: text)
    | SASLContinue(data: text)
    | SASLFinal(data: text)

  function AuthPayload(r: AuthRequest): text {
    match r
    case AuthenticationOk => ['\U{0}', '\U{0}', '\U{0}', '\U{0}']
    case KerberosV5 => ['\U{0}', '\U{0}', '\U{0}', '\U{2}']
    case CleartextPassword => ['\U{0}', '\U{0}', '\U{0}', '\U{3}']
    case MD5Password(salt) => ['\U{0}', '\U{0}', '\U{0}', '\U{5}'] + salt
    case GSS => ['\U{0}', '\U{0}', '\U{0}', '\U{7}']
    case GSSContinue(data) => ['\U{0}', '\U{0}', '\U{0}', '\U{8}'] + data
    case SSPI => ['\U{0}', '\U{0}', '\U{0}', '\U{9}']
    case SASL(mechanisms) => ['\U{0}', '\U{0}', '\U{0}', '\U{A}'] + mechanisms
    case SASLContinue(data) => ['\U{0}', '\U{0}', '\U{0}', '\U{B}'] + data
    case SASLFinal(data) => ['\U{0}', '\U{0}', '\U{0}', '\U{C}'] + data
  }

  /** What the server sends. */
  datatype Backend =
    | Authentication(request: AuthRequest)
    | DataRow(columns: text)
    | ErrorResponse(fields: seq<Field>)
    | ReadyForQuery(status: byte)
    | OtherReply(kind: byte, payload: text)

  /** What the client sends. */
  datatype Frontend =
    | Query(sql: text)
    | Parse(name: text, sql: text, types: text)
    | Bind(portal: text, statement: text, parameters: text)
    | Sync
    | Terminate
    | OtherRequest(kind: byte, payload: text)

  predicate ValidReply(b: Backend) {
    match b
    case ErrorResponse(fields) => forall i :: 0 <= i < |fields| ==> ValidField(fields[i])
    case OtherReply(kind, _) => kind !in "RDEZ"
    case _ => true
  }

  /** Strings end at a NUL and hold none. */
  predicate ValidRequest(f: Frontend) {
    match f
    case Query(sql) => NUL !in sql
    case Parse(name, sql, _) => NUL !in name && NUL !in sql
    case Bind(portal, statement, _) => NUL !in portal && NUL !in statement
    case OtherRequest(kind, _) => kind !in "QPBSX"
    case _ => true
  }

  function FromServer(b: Backend): Msg {
    match b
    case Authentication(request) => Msg('R', AuthPayload(request))
    case DataRow(columns) => Msg('D', columns)
    case ErrorResponse(fields) => Msg('E', EncodeFields(fields))
    case ReadyForQuery(status) => Msg('Z', [status])
    case OtherReply(kind, payload) => Msg(kind, payload)
  }

  function FromClient(f: Frontend): Msg {
    match f
    case Query(sql) => Msg('Q', sql + [NUL])
    case Parse(name, sql, types) => Msg('P', name + [NUL] + (sql + [NUL] + types))
    case Bind(portal, statement, parameters) => Msg('B', portal + [NUL] + (statement + [NUL] + parameters))
    case Sync => Msg('S', [])
    case Terminate => Msg('X', [])
    case OtherRequest(kind, payload) => Msg(kind, payload)
  }

  function Replies(bs: seq<Backend>): (ms: seq<Msg>)
    ensures |ms| == |bs|
    ensures forall i :: 0 <= i < |bs| ==> ms[i] == FromServer(bs[i])
  {
    if bs == [] then [] else Replies(bs[..|bs| - 1]) + [FromServer(bs[|bs| - 1])]
  }

  function Requests(fs: seq<Frontend>): (ms: seq<Msg>)
    ensures |ms| == |fs|
    ensures forall i :: 0 <= i < |fs| ==> ms[i] == FromClient(fs[i])
  {
    if fs == [] then [] else Requests(fs[..|fs| - 1]) + [FromClient(fs[|fs| - 1])]
  }

  predicate AllReplies(bs: seq<Backend>) {
    forall i :: 0 <= i < |bs| ==> ValidReply(bs[i])
  }

  predicate AllRequests(fs: seq<Frontend>) {
    forall i :: 0 <= i < |fs| ==> ValidRequest(fs[i])
  }
}

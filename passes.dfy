/**
 * The Pass entity of the PassKit web service: its origin record and derived
 * `last_update`, its creation defaults, the bearer-token guard in front of every
 * device call, and the construction of the content handed to the archive signer.
 */
module Passes {

  import opened Options
  import Decimal
  import Text

  /** A point in time; only the order of timestamps matters to this service. */
  type Timestamp = int

  /**
   * The business record a pass stands for: its model name, the audit stamps the
   * storage layer keeps (no write stamp until the first write) and the pass
   * content its content provider returns, as field name to serialised value.
   */
  datatype Origin = Origin(
    model: string,
    createDate: Timestamp,
    writeDate: Option<Timestamp>,
    content: map<string, string>)

  datatype Pass = Pass(id: nat, origin: Origin, authenticationToken: string, active: bool)

  /**
   * Exceptions the handlers raise instead of answering with a status code. The
   * guard's faults and the registration endpoint's are declared together because
   * `Reply` is shared by every handler.
   */
  datatype Fault =
    | AuthorizationHeaderMissing   // the request has no Authorization header
    | AuthorizationHeaderMalformed // the header does not split into exactly two parts
    | PushTokenMissing             // there is no JSON body, or it has no "pushToken"

  /** How a handler ends: with an HTTP status code, or by raising. */
  datatype Reply = Status(code: nat) | Raised(fault: Fault)

  const OK := 200
  const CREATED := 201
  const NO_CONTENT := 204
  const UNAUTHORIZED := 401
  const NOT_FOUND := 404

  // ---------------------------------------------------------------------------
  // Creation defaults and the origin selection list

  function DefaultActive(): bool {
    true
  }

  /**
   * A newly created pass. The token is the freshly generated random value (a
   * parameter here); `active` takes its default unless the creator sets it.
   */
  function NewPass(id: nat, origin: Origin, token: string, active: Option<bool>): (p: Pass)
    ensures p.id == id && p.origin == origin && p.authenticationToken == token
    ensures active == None ==> p.active
    ensures active != None ==> p.active == active.value
  {
    Pass(id, origin, token, if active.Some? then active.value else DefaultActive())
  }

  /** An installed model as the model registry lists it. */
  datatype IrModel = IrModel(model: string, name: string)

  /** One choice of the origin field: a model name (none for the blank choice) and its display name. */
  datatype Choice = Choice(model: Option<string>, name: string)

  /** The model names downstream modules allow as origins; none by default. */
  const DEFAULT_ORIGIN_MODELS: seq<string> := []

  /** Whether a choice names an installed model whose name is allowed. */
  predicate OffersAllowed(c: Choice, registry: seq<IrModel>, allowed: seq<string>) {
    c.model.Some? && c.model.value in allowed && IrModel(c.model.value, c.name) in registry
  }

  /** One choice per installed model whose name is allowed, in registry order. */
  function Offered(registry: seq<IrModel>, allowed: seq<string>): (offered: seq<Choice>)
    ensures forall m :: m in registry && m.model in allowed ==> Choice(Some(m.model), m.name) in offered
    ensures forall c :: c in offered ==> OffersAllowed(c, registry, allowed)
  {
    if registry == [] then []
    else
      var rest := Offered(registry[1..], allowed);
      assert forall m :: m in registry ==> m == registry[0] || m in registry[1..];
      if registry[0].model in allowed then [Choice(Some(registry[0].model), registry[0].name)] + rest else rest
  }

  /** The choices of the origin field: a blank entry, then one per allowed installed model. */
  function OriginChoices(registry: seq<IrModel>, allowed: seq<string>): (choices: seq<Choice>)
    ensures |choices| > 0 && choices[0] == Choice(None, "")
    ensures forall m :: m in registry && m.model in allowed ==> Choice(Some(m.model), m.name) in choices
    ensures forall i :: 1 <= i < |choices| ==> OffersAllowed(choices[i], registry, allowed)
  {
    var offered := Offered(registry, allowed);
    var choices := [Choice(None, "")] + offered;
    assert forall i :: 1 <= i < |choices| ==> choices[i] == offered[i - 1] && offered[i - 1] in offered;
    choices
  }

  /** With no downstream extension the only choice is the blank one. */
  lemma {:induction false} DefaultOriginChoices(registry: seq<IrModel>)
    ensures OriginChoices(registry, DEFAULT_ORIGIN_MODELS) == [Choice(None, "")]
  {
    if registry != [] {
      DefaultOriginChoices(registry[1..]);
    }
  }

  // ---------------------------------------------------------------------------
  // last_update

  /** The stamps a record carries. */
  function Stamps(o: Origin): set<Timestamp> {
    {o.createDate} + (if o.writeDate.Some? then {o.writeDate.value} else {})
  }

  /**
   * The origin's write stamp, or its creation stamp when it was never written.
   * The storage layer writes a record only after creating it, so the write stamp
   * is never earlier than the creation stamp; then `last_update` is the latest
   * stamp the record carries, and a never-written record reports its creation.
   */
  function LastUpdate(o: Origin): (t: Timestamp)
    ensures t in Stamps(o)
    ensures (o.writeDate.Some? ==> o.createDate <= o.writeDate.value) ==> forall s :: s in Stamps(o) ==> s <= t
    ensures o.writeDate == None ==> t == o.createDate
  {
    if o.writeDate.Some? then o.writeDate.value else o.createDate
  }

  // ---------------------------------------------------------------------------
  // Authorization

  /**
   * How the caller presents the pass's token: as an explicit request value, or
   * inside the `Authorization` header (absent when the request has none).
   */
  datatype Credential = Given(token: string) | FromHeader(header: Option<string>)

  datatype Verdict = Granted | Refused(reply: Reply)

  /** The token a credential presents, or the fault raised while reading it. */
  datatype Presentation = Token(token: string) | Failed(fault: Fault)

  /**
   * The token carried by a credential. A header is split at every space and must
   * yield exactly two parts; the first (meant to be "ApplePass") is not examined.
   */
  function PresentedToken(cred: Credential): (r: Presentation)
    ensures cred.Given? ==> r == Token(cred.token)
    ensures r.Token? && cred.FromHeader? ==>
      cred.header.Some? && Text.Occurrences(cred.header.value, ' ') == 1 &&
      exists word :: ' ' !in word && cred.header.value == word + " " + r.token
    ensures r.Failed? ==>
      && cred.FromHeader?
      && (cred.header == None <==> r.fault == AuthorizationHeaderMissing)
      && (cred.header != None <==> r.fault == AuthorizationHeaderMalformed)
  {
    match cred
    case Given(t) => Token(t)
    case FromHeader(None) => Failed(AuthorizationHeaderMissing)
    case FromHeader(Some(h)) =>
      var parts := Text.Split(h, ' ');
      Text.SplitCount(h, ' ');
      if |parts| != 2 then Failed(AuthorizationHeaderMalformed)
      else
        assert parts[1..] == [parts[1]];
        assert Text.Join(parts, ' ') == parts[0] + [' '] + Text.Join(parts[1..], ' ');
        assert h == parts[0] + " " + parts[1];
        Token(parts[1])
  }

  /** The guard every device call passes: the presented token must equal the stored one. */
  function CheckAuthorization(stored: string, cred: Credential): (v: Verdict)
    ensures v == Granted <==> PresentedToken(cred) == Token(stored)
    ensures cred.Given? ==> (v == Granted <==> cred.token == stored)
    ensures PresentedToken(cred).Token? && v != Granted ==> v == Refused(Status(UNAUTHORIZED))
    ensures PresentedToken(cred).Failed? ==> v == Refused(Raised(PresentedToken(cred).fault))
  {
    match PresentedToken(cred)
    case Failed(fault) => Refused(Raised(fault))
    case Token(t) => if t == stored then Granted else Refused(Status(UNAUTHORIZED))
  }

  /**
   * A header of one space-free word, a space and a space-free token is decided by
   * the token alone: granted when it is the stored token, 401 otherwise, whatever
   * the word is.
   */
  lemma HeaderAuthorization(stored: string, word: string, token: string)
    requires ' ' !in word && ' ' !in token
    ensures CheckAuthorization(stored, FromHeader(Some(word + " " + token))) ==
      if token == stored then Granted else Refused(Status(UNAUTHORIZED))
  {
    Text.SplitJoin([word, token], ' ');
    assert Text.Join([word, token], ' ') == word + " " + token;
  }

  /** A header without exactly one space raises instead of answering 401. */
  lemma MalformedHeaderRaises(stored: string, header: string)
    requires Text.Occurrences(header, ' ') != 1
    ensures CheckAuthorization(stored, FromHeader(Some(header))) == Refused(Raised(AuthorizationHeaderMalformed))
  {
    Text.SplitCount(header, ' ');
  }

  // ---------------------------------------------------------------------------
  // Archive construction

  const SERIAL_NUMBER := "serialNumber"
  const WEB_SERVICE_URL := "webServiceURL"
  const AUTHENTICATION_TOKEN := "authenticationToken"

  /** The key material the service is configured with. */
  datatype SigningConfig = SigningConfig(certificate: string, key: string, wwdrCertificate: string)

  /** Everything the external signer receives to build the signed archive. */
  datatype SignRequest = SignRequest(
    content: map<string, string>,
    certificate: string,
    key: string,
    wwdrCertificate: string,
    passphrase: string)

  /** The key passphrase is always empty. */
  const KEY_PASSPHRASE := ""

  /** The pass file object the content provider hands out, updated in place. */
  class PassFile {
    var fields: map<string, string>

    constructor (content: map<string, string>)
      ensures fields == content
    {
      fields := content;
    }
  }

  /**
   * Builds the pass file from the origin's content, writes the three fields this
   * service controls over whatever the origin supplied, and prepares the call to
   * the signer with the configured key material.
   */
  method MakePkpass(pass: Pass, webServiceUrl: string, config: SigningConfig) returns (request: SignRequest)
    ensures request.content.Keys == pass.origin.content.Keys + {SERIAL_NUMBER, WEB_SERVICE_URL, AUTHENTICATION_TOKEN}
    ensures request.content[SERIAL_NUMBER] == Decimal.FromNat(pass.id)
    ensures Decimal.IsDigits(request.content[SERIAL_NUMBER]) && Decimal.ToNat(request.content[SERIAL_NUMBER]) == pass.id
    ensures request.content[WEB_SERVICE_URL] == webServiceUrl
    ensures request.content[AUTHENTICATION_TOKEN] == pass.authenticationToken
    ensures forall k :: k in pass.origin.content && k !in {SERIAL_NUMBER, WEB_SERVICE_URL, AUTHENTICATION_TOKEN} ==>
      request.content[k] == pass.origin.content[k]
    ensures request.certificate == config.certificate && request.key == config.key
    ensures request.wwdrCertificate == config.wwdrCertificate && request.passphrase == KEY_PASSPHRASE
  {
    var passfile := new PassFile(pass.origin.content);
    passfile.fields := passfile.fields[SERIAL_NUMBER := Decimal.FromNat(pass.id)];
    passfile.fields := passfile.fields[WEB_SERVICE_URL := webServiceUrl];
    passfile.fields := passfile.fields[AUTHENTICATION_TOKEN := pass.authenticationToken];
    Decimal.ToNatFromNat(pass.id);
    request := SignRequest(passfile.fields, config.certificate, config.key, config.wwdrCertificate, KEY_PASSPHRASE);
  }

  const PKPASS_MIME_TYPE := "application/vnd.apple.pkpass"
  const PKPASS_FILE_NAME := "pass.pkpass"

  /** What a download handler returns: the archive as an attachment, or the guard's reply. */
  datatype Download = Attachment(request: SignRequest, mimeType: string, fileName: string) | Rejected(reply: Reply)

  /**
   * The two download handlers (token as a request value, or in the header):
   * authorization first, and the archive is built only for an authorized caller.
   */
  method ServeArchive(pass: Pass, cred: Credential, webServiceUrl: string, config: SigningConfig)
    returns (response: Download)
    ensures response.Attachment? <==> PresentedToken(cred) == Token(pass.authenticationToken)
    ensures response.Rejected? ==> response == Rejected(CheckAuthorization(pass.authenticationToken, cred).reply)
    ensures response.Attachment? ==>
      && response.mimeType == PKPASS_MIME_TYPE && response.fileName == PKPASS_FILE_NAME
      && SERIAL_NUMBER in response.request.content
      && response.request.content[SERIAL_NUMBER] == Decimal.FromNat(pass.id)
      && AUTHENTICATION_TOKEN in response.request.content
      && response.request.content[AUTHENTICATION_TOKEN] == pass.authenticationToken
  {
    var verdict := CheckAuthorization(pass.authenticationToken, cred);
    if verdict.Refused? {
      return Rejected(verdict.reply);
    }
    var request := MakePkpass(pass, webServiceUrl, config);
    response := Attachment(request, PKPASS_MIME_TYPE, PKPASS_FILE_NAME);
  }

}

/** Provenance signatures: signing a document, verifying an envelope, and what an accepted one must contain. */
module Signing {
  import opened Wrappers
  import opened ByteStrings
  import opened Decimals
  import opened JcsText
  import opened Jcs
  import opened JcsMeaning

  type Members = seq<Entry<Json>>

  /** The libraries: Ed25519, base64url, UTF-8 and `json.loads`. */
  datatype Library = Library(
    publicOf: Bytes -> Bytes,
    sign: (Bytes, Text) -> Bytes,
    accepts: (Bytes, Bytes, Text) -> bool,
    encode: Bytes -> Text,
    decode: Text -> Option<Bytes>,
    utf8: Text -> Option<Bytes>,
    loads: Bytes -> Option<Json>)

  /** What is relied on: signatures verify, encodings are left-invertible, headers are read as written. */
  ghost predicate Correct(lib: Library) {
    && (forall secret, message :: lib.accepts(lib.publicOf(secret), lib.sign(secret, message), message))
    && (forall secret, message :: lib.sign(secret, message) != [])
    && (forall b :: lib.decode(lib.encode(b)) == Some(b))
    && (forall b :: b != [] ==> IsBase64Url(lib.encode(b)))
    && (forall t :: t != [] && lib.utf8(t).Some? ==> lib.utf8(t).value != [])
    && (forall t, u :: lib.utf8(t).Some? && lib.utf8(t) == lib.utf8(u) ==> t == u)
    && (forall kid :: IsKid(kid) ==>
          lib.utf8(HeaderText(kid)).Some? && lib.loads(lib.utf8(HeaderText(kid)).value) == Loads(HeaderText(kid)))
  }

  const PROVENANCE := Ascii("provenance")
  const SIGNATURE := Ascii("signature")
  const ALG := Ascii("alg")
  const KID := Ascii("kid")
  const EDDSA := Ascii("EdDSA")

  predicate IsBase64Char(c: CodePoint) {
    65 <= c <= 90 || 97 <= c <= 122 || 48 <= c <= 57 || c == 45 || c == 95
  }

  /** One or more characters of the unpadded base64url alphabet. */
  predicate IsBase64Url(t: Text) { t != [] && forall i :: 0 <= i < |t| ==> IsBase64Char(t[i]) }

  /** `KID_PATTERN` */
  predicate IsKid(t: Text) {
    1 <= |t| <= 256 && forall i :: 0 <= i < |t| ==> IsBase64Char(t[i]) || t[i] == DOT
  }

  // ---- dictionaries ----

  function Find(members: Members, key: Text): Option<Json> {
    if members == [] then None
    else if members[0].key == key then Some(members[0].value)
    else Find(members[1..], key)
  }

  function Without(members: Members, key: Text): Members {
    if members == [] then []
    else if members[0].key == key then Without(members[1..], key)
    else [members[0]] + Without(members[1..], key)
  }

  /** `d[key] = value`: in place when the key is there, else last. */
  function Put(members: Members, key: Text, value: Json): Members {
    if members == [] then [Entry(key, value)]
    else if members[0].key == key then [Entry(key, value)] + members[1..]
    else [members[0]] + Put(members[1..], key, value)
  }

  lemma {:induction false} PutFind(members: Members, key: Text, value: Json)
    ensures Find(Put(members, key, value), key) == Some(value)
  {
    if members != [] && members[0].key != key { PutFind(members[1..], key, value); }
  }

  lemma {:induction false} PutWithout(members: Members, key: Text, value: Json)
    requires DistinctKeys(members)
    ensures Without(Put(members, key, value), key) == Without(members, key)
  {
    if members == [] {
      assert Without([Entry(key, value)], key) == Without([Entry(key, value)][1..], key);
    } else if members[0].key == key {
      assert ([Entry(key, value)] + members[1..])[1..] == members[1..];
    } else {
      PutWithout(members[1..], key, value);
      assert ([members[0]] + Put(members[1..], key, value))[1..] == Put(members[1..], key, value);
    }
  }

  lemma {:induction false} WithoutMember(members: Members, key: Text, m: Entry<Json>)
    ensures m in Without(members, key) <==> m in members && m.key != key
  {
    if members != [] {
      WithoutMember(members[1..], key, m);
    }
  }

  lemma {:induction false} WithoutDistinct(members: Members, key: Text)
    requires DistinctKeys(members)
    ensures DistinctKeys(Without(members, key))
  {
    if members != [] {
      var rest := Without(members[1..], key);
      WithoutDistinct(members[1..], key);
      if members[0].key != key {
        forall i | 0 <= i < |rest| ensures rest[i].key != members[0].key {
          assert rest[i] in rest;
          WithoutMember(members[1..], key, rest[i]);
          var j :| 0 <= j < |members[1..]| && members[1..][j] == rest[i];
          assert members[j + 1] == rest[i];
        }
      }
    }
  }

  lemma {:induction false} FindMember(members: Members, key: Text)
    requires Find(members, key).Some?
    ensures Entry(key, Find(members, key).value) in members
  {
    if members[0].key != key { FindMember(members[1..], key); }
  }

  // ---- the signed form ----

  function Provenance(document: Members): Option<Members> {
    match Find(document, PROVENANCE)
    case Some(Obj(members)) => Some(members)
    case _ => None
  }

  /** The document that is signed: everything but `provenance.signature`. */
  function Unsigned(document: Members, provenance: Members): Json {
    Obj(Without(document, PROVENANCE) + [Entry(PROVENANCE, Obj(Without(provenance, SIGNATURE)))])
  }

  function Body(document: Members): Json
    requires Provenance(document).Some?
  {
    Unsigned(document, Provenance(document).value)
  }

  lemma BodyWellFormed(document: Members)
    requires WellFormed(Obj(document)) && Provenance(document).Some?
    ensures WellFormed(Body(document))
  {
    var provenance := Provenance(document).value;
    FindMember(document, PROVENANCE);
    WithoutDistinct(provenance, SIGNATURE);
    WithoutDistinct(document, PROVENANCE);
    forall m | m in Without(provenance, SIGNATURE) ensures WellFormed(m.value) { WithoutMember(provenance, SIGNATURE, m); }
    forall m | m in Without(document, PROVENANCE) ensures WellFormed(m.value) && m.key != PROVENANCE {
      WithoutMember(document, PROVENANCE, m);
    }
    var rest := Without(document, PROVENANCE);
    assert forall i :: 0 <= i < |rest| ==> rest[i] in rest;
  }

  /** `json.dumps` of a text: ASCII, everything else escaped. */
  function Dumped(s: Text): Text {
    if s == [] then [] else DumpedChar(s[0]) + Dumped(s[1..])
  }

  function DumpedChar(c: CodePoint): Text {
    if c >= 0x10000 then UnicodeEscape(Units(c)[0]) + UnicodeEscape(Units(c)[1])
    else if c >= 127 then UnicodeEscape(c)
    else EscapeChar(c)
  }

  function UnicodeEscape(unit: int): Text
    requires 0 <= unit <= 0xFFFF
  {
    [BACKSLASH, LETTER_U, HexChar(unit / 4096), HexChar(unit / 256 % 16), HexChar(unit / 16 % 16), HexChar(unit % 16)]
  }

  function Quoted(s: Text): Text { [QUOTE] + Dumped(s) + [QUOTE] }

  /** `{"alg":"EdDSA","kid":...}` */
  function HeaderText(kid: Text): Text {
    [OPEN_OBJECT] + (Quoted(ALG) + [COLON] + Quoted(EDDSA) + [COMMA] + (Quoted(KID) + [COLON] + Quoted(kid)))
    + [CLOSE_OBJECT]
  }

  function Header(kid: Text): Json { Obj([Entry(ALG, Str(EDDSA)), Entry(KID, Str(kid))]) }

  datatype SignError = NoProvenance | NotCanonical | NotEncodable

  datatype Compact = Compact(header: Text, payload: Text, signature: Text) {
    function Message(): Text { header + [DOT] + payload }

    function Form(): Text { Message() + [DOT] + signature }
  }

  /** `sign_document` */
  function Sign(lib: Library, document: Members, secret: Bytes, kid: Text): Result<Members, SignError> {
    if Provenance(document).None? then Err(NoProvenance)
    else if lib.utf8(HeaderText(kid)).None? then Err(NotEncodable)
    else
      var body := Canonicalize(Body(document));
      if body.Err? then Err(NotCanonical)
      else if lib.utf8(body.value).None? then Err(NotEncodable)
      else
        var form := Signed(lib, body.value, secret, kid).Form();
        Ok(Put(document, PROVENANCE, Obj(Put(Provenance(document).value, SIGNATURE, Str(form)))))
  }

  function Signed(lib: Library, body: Text, secret: Bytes, kid: Text): Compact
    requires lib.utf8(HeaderText(kid)).Some? && lib.utf8(body).Some?
  {
    var unsigned := Compact(lib.encode(lib.utf8(HeaderText(kid)).value), lib.encode(lib.utf8(body).value), []);
    unsigned.(signature := lib.encode(lib.sign(secret, unsigned.Message())))
  }

  // ---- verification ----

  datatype Reason = MalformedJws | UnsupportedAlg | UnknownKid | PayloadMismatch | InvalidSignature

  /** `str.split(".")` */
  function Split(t: Text): (r: seq<Text>)
    ensures r != []
  {
    if t == [] then [[]]
    else
      var rest := Split(t[1..]);
      if t[0] == DOT then [[]] + rest else [[t[0]] + rest[0]] + rest[1..]
  }

  function DecodeSegment(lib: Library, segment: Text): Option<Bytes> {
    if IsBase64Url(segment) then lib.decode(segment) else None
  }

  function SignatureText(envelope: Members): Option<Text> {
    match Provenance(envelope)
    case None => None
    case Some(provenance) =>
      match Find(provenance, SIGNATURE)
      case Some(Str(text)) => Some(text)
      case _ => None
  }

  function ReadCompact(envelope: Members): Option<Compact> {
    match SignatureText(envelope)
    case None => None
    case Some(text) =>
      var segments := Split(text);
      if |segments| == 3 then Some(Compact(segments[0], segments[1], segments[2])) else None
  }

  /** The kid a protected header names. */
  function ReadHeader(lib: Library, header: Bytes): Result<Text, Reason> {
    match lib.loads(header)
    case Some(Obj(members)) =>
      if Find(members, ALG) != Some(Str(EDDSA)) then Err(UnsupportedAlg)
      else
        (match Find(members, KID)
         case Some(Str(kid)) => if IsKid(kid) then Ok(kid) else Err(MalformedJws)
         case _ => Err(MalformedJws))
    case _ => Err(MalformedJws)
  }

  /** The payload segment carries exactly the canonical bytes of the envelope without its signature. */
  predicate CarriesBody(lib: Library, envelope: Members, payload: Bytes)
    requires Provenance(envelope).Some?
  {
    var body := Canonicalize(Body(envelope));
    body.Ok? && lib.utf8(body.value) == Some(payload)
  }

  /** The outcome of `_verify`. */
  function Outcome(lib: Library, directory: map<Text, Bytes>, envelope: Members): Result<Text, Reason> {
    match ReadCompact(envelope)
    case None => Err(MalformedJws)
    case Some(jws) =>
      var header := DecodeSegment(lib, jws.header);
      var payload := DecodeSegment(lib, jws.payload);
      var signature := DecodeSegment(lib, jws.signature);
      if header.None? || payload.None? || signature.None? then Err(MalformedJws)
      else
        var kid := ReadHeader(lib, header.value);
        if kid.Err? then kid
        else if kid.value !in directory then Err(UnknownKid)
        else if !CarriesBody(lib, envelope, payload.value) then Err(PayloadMismatch)
        else if !lib.accepts(directory[kid.value], signature.value, jws.Message()) then Err(InvalidSignature)
        else kid
  }

  /** The verifier and its counters. */
  class EnvelopeSignatureVerifier {
    const directory: map<Text, Bytes>
    var verified: nat
    var rejected: map<Reason, nat>

    constructor (directory: map<Text, Bytes>)
      ensures this.directory == directory && verified == 0 && rejected == map[]
      ensures forall r :: Rejections(r) == 0
    {
      this.directory := directory;
      verified, rejected := 0, map[];
    }

    /** Rejections of one kind. */
    function Rejections(reason: Reason): nat
      reads this
    {
      if reason in rejected then rejected[reason] else 0
    }

    method RecordRejected(reason: Reason)
      modifies this`rejected
      ensures forall r :: Rejections(r) == old(Rejections(r)) + (if r == reason then 1 else 0)
      ensures rejected.Keys == old(rejected).Keys + {reason}
      ensures rejected[reason] == (if reason in old(rejected) then old(rejected)[reason] else 0) + 1
    {
      rejected := rejected[reason := Rejections(reason) + 1];
    }

    /** Exactly one counter goes up by one, the one the outcome names. */
    method Verify(lib: Library, envelope: Members) returns (outcome: Result<Text, Reason>)
      modifies this
      ensures outcome == Outcome(lib, directory, envelope)
      ensures verified == old(verified) + (if outcome.Ok? then 1 else 0)
      ensures forall r :: Rejections(r) == old(Rejections(r)) + (if outcome == Err(r) then 1 else 0)
    {
      outcome := Check(lib, envelope);
      match outcome
      case Ok(_) => verified := verified + 1;
      case Err(reason) => RecordRejected(reason);
    }

    method Check(lib: Library, envelope: Members) returns (outcome: Result<Text, Reason>)
      ensures outcome == Outcome(lib, directory, envelope)
    {
      var provenance := Provenance(envelope);
      if provenance.None? { return Err(MalformedJws); }
      var text := Find(provenance.value, SIGNATURE);
      if text.None? || !text.value.Str? { return Err(MalformedJws); }
      var segments := Split(text.value.s);
      if |segments| != 3 { return Err(MalformedJws); }
      var header := DecodeSegment(lib, segments[0]);
      var payload := DecodeSegment(lib, segments[1]);
      var signature := DecodeSegment(lib, segments[2]);
      if header.None? || payload.None? || signature.None? { return Err(MalformedJws); }
      outcome := ReadHeader(lib, header.value);
      if outcome.Err? { return; }
      var kid := outcome.value;
      if kid !in directory { return Err(UnknownKid); }
      var body := Canonicalize(Unsigned(envelope, provenance.value));
      if body.Err? || lib.utf8(body.value) != payload { return Err(PayloadMismatch); }
      if !lib.accepts(directory[kid], signature.value, segments[0] + [DOT] + segments[1]) {
        return Err(InvalidSignature);
      }
    }
  }

  // ---- reading back what was signed ----

  lemma {:induction false} SplitPlain(t: Text)
    requires DOT !in t
    ensures Split(t) == [t]
  {
    if t != [] {
      SplitPlain(t[1..]);
      assert t == [t[0]] + t[1..];
    }
  }

  lemma {:induction false} SplitFirst(a: Text, rest: Text)
    requires DOT !in a
    ensures Split(a + [DOT] + rest) == [a] + Split(rest)
  {
    var t := a + [DOT] + rest;
    if a == [] {
      assert t[0] == DOT && t[1..] == rest;
    } else {
      assert t[1..] == a[1..] + [DOT] + rest;
      SplitFirst(a[1..], rest);
      assert a == [a[0]] + a[1..];
      assert ([a[1..]] + Split(rest))[1..] == Split(rest);
    }
  }

  lemma SplitForm(jws: Compact)
    requires DOT !in jws.header && DOT !in jws.payload && DOT !in jws.signature
    ensures Split(jws.Form()) == [jws.header, jws.payload, jws.signature]
  {
    assert jws.Form() == jws.header + [DOT] + (jws.payload + [DOT] + jws.signature);
    SplitFirst(jws.header, jws.payload + [DOT] + jws.signature);
    SplitFirst(jws.payload, jws.signature);
    SplitPlain(jws.signature);
  }

  /** The characters of a kid stand for themselves in the header. */
  lemma {:induction false} KidIsPlain(kid: Text)
    requires forall i :: 0 <= i < |kid| ==> IsBase64Char(kid[i]) || kid[i] == DOT
    ensures Dumped(kid) == kid == Escape(kid)
  {
    if kid != [] {
      KidIsPlain(kid[1..]);
      assert kid == [kid[0]] + kid[1..];
      assert EscapeChar(kid[0]) == [kid[0]];
    }
  }

  lemma PlainQuoted(t: Text)
    requires forall i :: 0 <= i < |t| ==> IsBase64Char(t[i]) || t[i] == DOT
    ensures Quoted(t) == SerializeString(t)
  {
    KidIsPlain(t);
  }

  lemma TwoMembersText(a: Entry<Json>, b: Entry<Json>)
    ensures Written(Obj([a, b])) == [OPEN_OBJECT] + (WrittenMember(a) + [COMMA] + WrittenMember(b)) + [CLOSE_OBJECT]
    ensures FloatMembers([a, b]) == [FloatMember(a), FloatMember(b)]
  {
    assert [a, b][1..] == [b] && [b][1..] == [];
    MembersShape([a, b], []);
    MembersShape([b], []);
    var joined := Joined(WrittenMembers([a, b]));
    assert joined + [] == joined && FloatMembers([]) == [];
    assert joined == WrittenMember(a) + [COMMA] + WrittenMember(b);
  }

  /** The header text is the JSON text of the header. */
  lemma HeaderIsJson(kid: Text)
    requires IsKid(kid)
    ensures HeaderText(kid) == Written(Header(kid))
  {
    PlainQuoted(ALG);
    PlainQuoted(EDDSA);
    PlainQuoted(KID);
    PlainQuoted(kid);
    TwoMembersText(Entry(ALG, Str(EDDSA)), Entry(KID, Str(kid)));
  }

  lemma TwoTextsLoad(k: Text, s: Text, l: Text, t: Text)
    requires k != l
    ensures Loads(Written(Obj([Entry(k, Str(s)), Entry(l, Str(t))]))) == Some(Obj([Entry(k, Str(s)), Entry(l, Str(t))]))
    ensures Find([Entry(k, Str(s)), Entry(l, Str(t))], k) == Some(Str(s))
    ensures Find([Entry(k, Str(s)), Entry(l, Str(t))], l) == Some(Str(t))
  {
    var a, b := Entry(k, Str(s)), Entry(l, Str(t));
    var v := Obj([a, b]);
    TwoMembersText(a, b);
    WrittenReads(v, []);
    assert Written(v) + [] == Written(v);
    assert [a, b][1..] == [b];
    assert Find([a, b], l) == Find([b], l);
  }

  lemma HeaderReads(lib: Library, kid: Text)
    requires Correct(lib) && IsKid(kid)
    ensures lib.utf8(HeaderText(kid)).Some? && ReadHeader(lib, lib.utf8(HeaderText(kid)).value) == Ok(kid)
  {
    HeaderIsJson(kid);
    assert ALG[0] != KID[0];
    TwoTextsLoad(ALG, EDDSA, KID, kid);
  }

  /** A signed document carries the signature, over the same body. */
  lemma SignedCarries(lib: Library, document: Members, secret: Bytes, kid: Text)
    requires DistinctKeys(document) && Sign(lib, document, secret, kid).Ok?
    requires Provenance(document).Some? && DistinctKeys(Provenance(document).value)
    ensures var signed := Sign(lib, document, secret, kid).value;
      && Provenance(signed).Some? && Body(signed) == Body(document)
      && SignatureText(signed) == Some(Signed(lib, Serialize(Body(document)), secret, kid).Form())
  {
    var provenance := Provenance(document).value;
    var form := Signed(lib, Serialize(Body(document)), secret, kid).Form();
    var stamped := Obj(Put(provenance, SIGNATURE, Str(form)));
    PutFind(provenance, SIGNATURE, Str(form));
    PutFind(document, PROVENANCE, stamped);
    PutWithout(provenance, SIGNATURE, Str(form));
    PutWithout(document, PROVENANCE, stamped);
  }

  lemma SegmentsDecode(lib: Library, body: Text, secret: Bytes, kid: Text)
    requires Correct(lib) && lib.utf8(HeaderText(kid)).Some? && lib.utf8(body).Some? && body != []
    ensures var jws := Signed(lib, body, secret, kid);
      && Split(jws.Form()) == [jws.header, jws.payload, jws.signature]
      && DecodeSegment(lib, jws.header) == lib.utf8(HeaderText(kid))
      && DecodeSegment(lib, jws.payload) == lib.utf8(body)
      && DecodeSegment(lib, jws.signature) == Some(lib.sign(secret, jws.Message()))
  {
    var jws := Signed(lib, body, secret, kid);
    SplitForm(jws);
  }

  lemma CompactOutcome(lib: Library, directory: map<Text, Bytes>, body: Text, secret: Bytes, kid: Text,
                       envelope: Members, jws: Compact)
    requires Correct(lib) && IsKid(kid) && lib.utf8(HeaderText(kid)).Some? && lib.utf8(body).Some? && body != []
    requires jws == Signed(lib, body, secret, kid) && SignatureText(envelope) == Some(jws.Form())
    ensures Outcome(lib, directory, envelope) ==
            if kid !in directory then Err(UnknownKid)
            else if !CarriesBody(lib, envelope, lib.utf8(body).value) then Err(PayloadMismatch)
            else if !lib.accepts(directory[kid], lib.sign(secret, jws.Message()), jws.Message())
            then Err(InvalidSignature)
            else Ok(kid)
  {
    SegmentsDecode(lib, body, secret, kid);
    HeaderReads(lib, kid);
    assert ReadCompact(envelope) == Some(Compact(jws.header, jws.payload, jws.signature)) == Some(jws);
  }

  /** What verification makes of an envelope that carries the signature of some signed document. */
  lemma CarriedOutcome(lib: Library, directory: map<Text, Bytes>, document: Members, secret: Bytes, kid: Text,
                       envelope: Members)
    requires Correct(lib) && IsKid(kid) && Sign(lib, document, secret, kid).Ok?
    requires SignatureText(envelope) == Some(Signed(lib, Serialize(Body(document)), secret, kid).Form())
    ensures Outcome(lib, directory, envelope) ==
            if kid !in directory then Err(UnknownKid)
            else if !Serializable(Body(envelope)) || Serialize(Body(envelope)) != Serialize(Body(document))
            then Err(PayloadMismatch)
            else if !lib.accepts(directory[kid], lib.sign(secret, Message(lib, document, secret, kid)),
                                 Message(lib, document, secret, kid))
            then Err(InvalidSignature)
            else Ok(kid)
  {
    var text := Serialize(Body(document));
    CompactOutcome(lib, directory, text, secret, kid, envelope, Signed(lib, text, secret, kid));
  }

  /** The text that is signed. */
  function Message(lib: Library, document: Members, secret: Bytes, kid: Text): Text
    requires Sign(lib, document, secret, kid).Ok?
  {
    Signed(lib, Serialize(Body(document)), secret, kid).Message()
  }

  /** Verifying a signed document returns its kid whenever the directory maps the kid to the signer's key. */
  lemma SignedVerifies(lib: Library, directory: map<Text, Bytes>, document: Members, secret: Bytes, kid: Text)
    requires Correct(lib) && IsKid(kid) && WellFormed(Obj(document)) && Sign(lib, document, secret, kid).Ok?
    ensures kid in directory && directory[kid] == lib.publicOf(secret) ==>
              Outcome(lib, directory, Sign(lib, document, secret, kid).value) == Ok(kid)
    ensures kid !in directory ==> Outcome(lib, directory, Sign(lib, document, secret, kid).value) == Err(UnknownKid)
  {
    FindMember(document, PROVENANCE);
    SignedCarries(lib, document, secret, kid);
    CarriedOutcome(lib, directory, document, secret, kid, Sign(lib, document, secret, kid).value);
  }

  // ---- a signature moved to another document ----

  /** Being serializable is a matter of the value. */
  lemma {:induction false} SameSerializable(v: Json, w: Json)
    requires Serializable(v) && Same(v, w)
    ensures Serializable(w)
    decreases v
  {
    match v
    case Arr(items) =>
      forall x | x in w.items ensures Serializable(x) {
        var i :| 0 <= i < |w.items| && w.items[i] == x;
        assert items[i] in items;
        SameSerializable(items[i], x);
      }
    case Obj(members) =>
      forall m | m in w.members ensures Serializable(m.value) {
        var j :| 0 <= j < |w.members| && w.members[j] == m;
        assert HasName(members, w.members[j].key);
        var i :| 0 <= i < |members| && members[i].key == w.members[j].key;
        assert members[i] in members;
        SameSerializable(members[i].value, m.value);
      }
    case _ =>
  }

  /**
   * Under a signature made for another document, an envelope is accepted only if it is that document
   * outside the signature, as a JSON value; and it is accepted if it is, when names are clear.
   */
  lemma MovedSignature(lib: Library, directory: map<Text, Bytes>, document: Members, secret: Bytes, kid: Text,
                       envelope: Members)
    requires Correct(lib) && IsKid(kid) && kid in directory && directory[kid] == lib.publicOf(secret)
    requires WellFormed(Obj(document)) && WellFormed(Obj(envelope)) && Sign(lib, document, secret, kid).Ok?
    requires SignatureText(envelope) == SignatureText(Sign(lib, document, secret, kid).value)
    ensures SignatureText(envelope).Some?
    ensures Outcome(lib, directory, envelope).Ok? ==>
              Outcome(lib, directory, envelope) == Ok(kid) && Same(Body(document), Body(envelope))
    ensures ClearNames(Body(document)) && Same(Body(document), Body(envelope)) ==>
              Outcome(lib, directory, envelope) == Ok(kid)
  {
    FindMember(document, PROVENANCE);
    SignedCarries(lib, document, secret, kid);
    CarriedOutcome(lib, directory, document, secret, kid, envelope);
    BodyWellFormed(document);
    BodyWellFormed(envelope);
    if Same(Body(document), Body(envelope)) { SameSerializable(Body(document), Body(envelope)); }
    if Serializable(Body(envelope)) { SerializeEqualIffSame(Body(document), Body(envelope)); }
  }
}

/**
 * Signatures by their contents: which envelopes are accepted, which are rejected why, and what a signed one
 * carries.
 */
module SigningForm {
  import opened Wrappers
  import opened ByteStrings
  import opened Decimals
  import opened JcsText
  import opened Jcs
  import opened JcsMeaning
  import opened Signing

  // ---- members of a dictionary ----

  /** The first member of that name has the value. */
  ghost predicate Has(members: Members, key: Text, value: Json) {
    exists i :: HasFirstAt(members, key, value, i)
  }

  ghost predicate HasFirstAt(members: Members, key: Text, value: Json, i: int) {
    0 <= i < |members| && members[i] == Entry(key, value) && forall j :: 0 <= j < i ==> members[j].key != key
  }

  lemma {:induction false} FoundIsFirst(members: Members, key: Text, value: Json)
    ensures Find(members, key) == Some(value) <==> Has(members, key, value)
  {
    if members == [] {
    } else if members[0].key == key {
      if members[0].value == value { assert HasFirstAt(members, key, value, 0); }
    } else {
      var rest := members[1..];
      FoundIsFirst(rest, key, value);
      if i :| HasFirstAt(rest, key, value, i) { assert HasFirstAt(members, key, value, i + 1); }
      if i :| HasFirstAt(members, key, value, i) { assert HasFirstAt(rest, key, value, i - 1); }
    }
  }

  // ---- the protected header ----

  /** 1 to 256 letters, digits, dots, hyphens and underscores. */
  predicate KidForm(t: Text) {
    1 <= |t| <= 256 && forall i :: 0 <= i < |t| ==>
      48 <= t[i] <= 57 || 65 <= t[i] <= 90 || 97 <= t[i] <= 122 || t[i] in {45, 46, 95}
  }

  /** The header is an object with these members. */
  predicate IsObject(lib: Library, header: Bytes, members: Members) { lib.loads(header) == Some(Obj(members)) }

  /** It names the algorithm EdDSA and the kid. */
  ghost predicate NamesKid(members: Members, kid: Text) {
    Has(members, Ascii("alg"), Str(Ascii("EdDSA"))) && Has(members, Ascii("kid"), Str(kid)) && KidForm(kid)
  }

  lemma KidFormIff(t: Text)
    ensures IsKid(t) <==> KidForm(t)
  {
  }

  lemma HeaderOfMembers(lib: Library, header: Bytes, members: Members, kid: Text)
    requires IsObject(lib, header, members)
    ensures ReadHeader(lib, header) == Ok(kid) <==> NamesKid(members, kid)
    ensures ReadHeader(lib, header) == Err(UnsupportedAlg) <==> !Has(members, Ascii("alg"), Str(Ascii("EdDSA")))
    ensures ReadHeader(lib, header).Ok? || ReadHeader(lib, header) in {Err(UnsupportedAlg), Err(MalformedJws)}
  {
    FoundIsFirst(members, Ascii("alg"), Str(Ascii("EdDSA")));
    FoundIsFirst(members, Ascii("kid"), Str(kid));
    KidFormIff(kid);
  }

  /**
   * A header is accepted exactly as an object that names EdDSA and a well-formed kid; an object with any other
   * algorithm is unsupported.
   */
  lemma HeaderIs(lib: Library, header: Bytes, kid: Text)
    ensures ReadHeader(lib, header) == Ok(kid) <==>
            exists members :: IsObject(lib, header, members) && NamesKid(members, kid)
    ensures ReadHeader(lib, header) == Err(UnsupportedAlg) <==>
            exists members :: IsObject(lib, header, members) && !Has(members, Ascii("alg"), Str(Ascii("EdDSA")))
    ensures ReadHeader(lib, header).Ok? || ReadHeader(lib, header) in {Err(UnsupportedAlg), Err(MalformedJws)}
  {
    match lib.loads(header)
    case Some(Obj(members)) =>
      HeaderOfMembers(lib, header, members, kid);
      assert IsObject(lib, header, members);
    case _ =>
  }

  // ---- the compact serialization ----

  /** Three texts without dots, joined by dots. */
  predicate Joins(text: Text, jws: Compact) {
    && 46 !in jws.header && 46 !in jws.payload && 46 !in jws.signature
    && text == jws.header + Ascii(".") + jws.payload + Ascii(".") + jws.signature
  }

  /** The text at `provenance.signature`. */
  ghost predicate Signature(envelope: Members, provenance: Members, text: Text) {
    Has(envelope, Ascii("provenance"), Obj(provenance)) && Has(provenance, Ascii("signature"), Str(text))
  }

  ghost predicate Carries(envelope: Members, jws: Compact) {
    exists provenance, text :: Signature(envelope, provenance, text) && Joins(text, jws)
  }

  lemma SignatureIs(envelope: Members, text: Text)
    ensures SignatureText(envelope) == Some(text) <==> exists provenance :: Signature(envelope, provenance, text)
  {
    forall provenance
      ensures Find(envelope, PROVENANCE) == Some(Obj(provenance)) <==>
              Has(envelope, Ascii("provenance"), Obj(provenance))
      ensures Find(provenance, SIGNATURE) == Some(Str(text)) <==> Has(provenance, Ascii("signature"), Str(text))
    {
      FoundIsFirst(envelope, Ascii("provenance"), Obj(provenance));
      FoundIsFirst(provenance, Ascii("signature"), Str(text));
    }
    if SignatureText(envelope) == Some(text) {
      var provenance := Provenance(envelope).value;
      assert Signature(envelope, provenance, text);
    }
  }

  /** The segments of a text joined by dots again. */
  function Dotted(segments: seq<Text>): Text {
    if segments == [] then [] else if |segments| == 1 then segments[0] else segments[0] + [46] + Dotted(segments[1..])
  }

  lemma {:induction false} SplitJoins(t: Text)
    ensures Dotted(Split(t)) == t && forall i :: 0 <= i < |Split(t)| ==> 46 !in Split(t)[i]
  {
    if t != [] {
      var rest := Split(t[1..]);
      SplitJoins(t[1..]);
      assert t == [t[0]] + t[1..];
      if t[0] == DOT {
        assert Split(t)[1..] == rest;
      } else {
        SameTail(t[0], rest);
      }
    }
  }

  lemma SameTail(c: CodePoint, rest: seq<Text>)
    requires rest != []
    ensures Dotted([[c] + rest[0]] + rest[1..]) == [c] + Dotted(rest)
  {
    var s := [[c] + rest[0]] + rest[1..];
    assert s[1..] == rest[1..];
    if |rest| > 1 { assert [c] + rest[0] + [46] + Dotted(rest[1..]) == [c] + (rest[0] + [46] + Dotted(rest[1..])); }
  }

  lemma SplitIs(t: Text, jws: Compact)
    ensures Split(t) == [jws.header, jws.payload, jws.signature] <==> Joins(t, jws)
  {
    assert Ascii(".") == [46];
    if Joins(t, jws) {
      assert t == jws.Form();
      SplitForm(jws);
    }
    if Split(t) == [jws.header, jws.payload, jws.signature] {
      SplitJoins(t);
      ThreeDotted(jws.header, jws.payload, jws.signature);
      assert Split(t)[0] == jws.header && Split(t)[1] == jws.payload && Split(t)[2] == jws.signature;
    }
  }

  lemma ThreeDotted(a: Text, b: Text, c: Text)
    ensures Dotted([a, b, c]) == a + [46] + b + [46] + c
  {
    assert [a, b, c][1..] == [b, c] && [b, c][1..] == [c];
    assert Dotted([b, c]) == b + [46] + c;
  }

  lemma CompactIs(envelope: Members, jws: Compact)
    ensures ReadCompact(envelope) == Some(jws) <==> Carries(envelope, jws)
  {
    if ReadCompact(envelope) == Some(jws) {
      var text := SignatureText(envelope).value;
      SplitIs(text, jws);
      SignatureIs(envelope, text);
    }
    if Carries(envelope, jws) {
      var provenance, text :| Signature(envelope, provenance, text) && Joins(text, jws);
      SplitIs(text, jws);
      SignatureIs(envelope, text);
    }
  }

  // ---- the outcome, by contents ----

  /** What an envelope with a readable signature consists of. */
  datatype Parts = Parts(provenance: Members, text: Text, jws: Compact, header: Bytes, payload: Bytes, signature: Bytes,
                         members: Members)

  /** Letters, digits, hyphens and underscores, at least one, that decode to the bytes. */
  predicate Segment(lib: Library, t: Text, bytes: Bytes) {
    && t != [] && lib.decode(t) == Some(bytes)
    && forall i :: 0 <= i < |t| ==> 48 <= t[i] <= 57 || 65 <= t[i] <= 90 || 97 <= t[i] <= 122 || t[i] in {45, 95}
  }

  ghost predicate Legible(lib: Library, envelope: Members, p: Parts) {
    && Signature(envelope, p.provenance, p.text) && Joins(p.text, p.jws)
    && Segment(lib, p.jws.header, p.header) && Segment(lib, p.jws.payload, p.payload)
    && Segment(lib, p.jws.signature, p.signature) && IsObject(lib, p.header, p.members)
  }

  lemma LegibleReads(lib: Library, envelope: Members, p: Parts)
    requires Legible(lib, envelope, p)
    ensures ReadCompact(envelope) == Some(p.jws) && Provenance(envelope) == Some(p.provenance)
    ensures DecodeSegment(lib, p.jws.header) == Some(p.header) && DecodeSegment(lib, p.jws.payload) == Some(p.payload)
    ensures DecodeSegment(lib, p.jws.signature) == Some(p.signature)
  {
    CompactIs(envelope, p.jws);
    assert Signature(envelope, p.provenance, p.text);
    FoundIsFirst(envelope, Ascii("provenance"), Obj(p.provenance));
  }

  /** The payload is the canonical text of the envelope without its signature. */
  predicate Matches(lib: Library, envelope: Members, payload: Bytes)
    requires Provenance(envelope).Some?
  {
    Serializable(Body(envelope)) && lib.utf8(Serialize(Body(envelope))) == Some(payload)
  }

  lemma OutcomeOf(lib: Library, directory: map<Text, Bytes>, envelope: Members, p: Parts)
    requires Legible(lib, envelope, p)
    ensures Provenance(envelope).Some?
    ensures Outcome(lib, directory, envelope) ==
            var kid := ReadHeader(lib, p.header);
            if kid.Err? then kid
            else if kid.value !in directory then Err(UnknownKid)
            else if !Matches(lib, envelope, p.payload) then Err(PayloadMismatch)
            else if !lib.accepts(directory[kid.value], p.signature, p.jws.header + Ascii(".") + p.jws.payload)
            then Err(InvalidSignature)
            else kid
  {
    LegibleReads(lib, envelope, p);
    assert Ascii(".") == [DOT];
  }

  /**
   * The outcome for a legible envelope: another algorithm, no kid, an unknown kid, another payload, a false
   * signature, or the kid.
   */
  lemma LegibleOutcome(lib: Library, directory: map<Text, Bytes>, envelope: Members, p: Parts)
    requires Legible(lib, envelope, p)
    ensures Provenance(envelope).Some?
    ensures !Has(p.members, Ascii("alg"), Str(Ascii("EdDSA"))) ==>
              Outcome(lib, directory, envelope) == Err(UnsupportedAlg)
    ensures Has(p.members, Ascii("alg"), Str(Ascii("EdDSA"))) && (forall kid :: !NamesKid(p.members, kid)) ==>
              Outcome(lib, directory, envelope) == Err(MalformedJws)
    ensures forall kid :: NamesKid(p.members, kid) ==>
              Outcome(lib, directory, envelope) ==
              if kid !in directory then Err(UnknownKid)
              else if !Matches(lib, envelope, p.payload) then Err(PayloadMismatch)
              else if !lib.accepts(directory[kid], p.signature, p.jws.header + Ascii(".") + p.jws.payload)
              then Err(InvalidSignature)
              else Ok(kid)
  {
    OutcomeOf(lib, directory, envelope, p);
    forall kid ensures ReadHeader(lib, p.header) == Ok(kid) <==> NamesKid(p.members, kid) {
      HeaderOfMembers(lib, p.header, p.members, kid);
    }
    HeaderOfMembers(lib, p.header, p.members, []);
  }

  /** Any other envelope is malformed. */
  lemma IllegibleOutcome(lib: Library, directory: map<Text, Bytes>, envelope: Members)
    requires forall p :: !Legible(lib, envelope, p)
    ensures Outcome(lib, directory, envelope) == Err(MalformedJws)
  {
    if ReadCompact(envelope).Some? {
      var jws := ReadCompact(envelope).value;
      CompactIs(envelope, jws);
      var provenance, text :| Signature(envelope, provenance, text) && Joins(text, jws);
      var h, l, s := DecodeSegment(lib, jws.header), DecodeSegment(lib, jws.payload), DecodeSegment(lib, jws.signature);
      if h.Some? && l.Some? && s.Some? {
        match lib.loads(h.value)
        case Some(Obj(members)) =>
          assert Legible(lib, envelope, Parts(provenance, text, jws, h.value, l.value, s.value, members));
          assert false;
        case _ =>
      }
    }
  }

  /**
   * Accepted under a kid is exactly the envelope whose header names EdDSA and that kid, whose payload it is, and
   * whose signature holds.
   */
  lemma AcceptedIff(lib: Library, directory: map<Text, Bytes>, envelope: Members, kid: Text)
    ensures Outcome(lib, directory, envelope) == Ok(kid) <==>
            exists p ::
              && Legible(lib, envelope, p) && NamesKid(p.members, kid) && kid in directory && Provenance(envelope).Some?
              && Matches(lib, envelope, p.payload)
              && lib.accepts(directory[kid], p.signature, p.jws.header + Ascii(".") + p.jws.payload)
  {
    if exists p :: Legible(lib, envelope, p) {
      forall p | Legible(lib, envelope, p)
        ensures Provenance(envelope).Some?
        ensures Outcome(lib, directory, envelope) == Ok(kid) <==>
                && NamesKid(p.members, kid) && kid in directory && Matches(lib, envelope, p.payload)
                && lib.accepts(directory[kid], p.signature, p.jws.header + Ascii(".") + p.jws.payload)
      {
        LegibleOutcome(lib, directory, envelope, p);
      }
    } else {
      IllegibleOutcome(lib, directory, envelope);
    }
  }

  // ---- what is signed ----

  /** In the header the printable ASCII characters but two stand for themselves, and those beyond are escaped. */
  lemma DumpedForms(c: CodePoint)
    ensures 32 <= c < 127 && c != 34 && c != 92 ==> DumpedChar(c) == [c]
    ensures 127 <= c < 0x10000 ==> DumpedChar(c) == UnicodeEscape(c)
    ensures c >= 0x10000 ==>
              DumpedChar(c) == UnicodeEscape(0xD800 + (c - 0x10000) / 0x400) + UnicodeEscape(0xDC00 + (c - 0x10000) % 0x400)
  {
  }

  /** A backslash, a u, and four lower-case hexadecimal digits. */
  lemma UnicodeForms()
    ensures UnicodeEscape(0x7F) == [92, 117, 48, 48, 55, 102]
    ensures UnicodeEscape(0xD83D) == [92, 117, 100, 56, 51, 100]
  {
  }

  /** The members but those of one name. */
  ghost predicate Leaves(rest: Members, members: Members, key: Text) {
    forall m :: m in rest <==> m in members && m.key != key
  }

  /** The members of the document, and in place of its provenance one without signature. */
  ghost predicate IsBody(body: Json, document: Members, provenance: Members) {
    && body.Obj?
    && exists rest, others ::
         && Leaves(rest, provenance, Ascii("signature")) && Leaves(others, document, Ascii("provenance"))
         && body.members == others + [Entry(Ascii("provenance"), Obj(rest))]
  }

  lemma LeavesWithout(members: Members, key: Text)
    ensures Leaves(Without(members, key), members, key)
  {
    forall m ensures m in Without(members, key) <==> m in members && m.key != key { WithoutMember(members, key, m); }
  }

  lemma BodyIs(document: Members, provenance: Members)
    requires Has(document, Ascii("provenance"), Obj(provenance))
    ensures Provenance(document) == Some(provenance) && IsBody(Body(document), document, provenance)
  {
    FoundIsFirst(document, Ascii("provenance"), Obj(provenance));
    LeavesWithout(document, PROVENANCE);
    LeavesWithout(provenance, SIGNATURE);
  }

  lemma QuotedWord(word: Text, quoted: Text)
    requires forall i :: 0 <= i < |word| ==> IsBase64Char(word[i]) || word[i] == DOT
    requires |quoted| == |word| + 2 && quoted[0] == 34 && quoted[|word| + 1] == 34
    requires forall i :: 0 <= i < |word| ==> quoted[i + 1] == word[i]
    ensures Quoted(word) == quoted
  {
    KidIsPlain(word);
  }

  lemma AlgWord()
    ensures Quoted(ALG) == Ascii("\"alg\"")
  {
    QuotedWord(ALG, Ascii("\"alg\""));
  }

  lemma EddsaWord()
    ensures Quoted(EDDSA) == Ascii("\"EdDSA\"")
  {
    QuotedWord(EDDSA, Ascii("\"EdDSA\""));
  }

  lemma KidWord()
    ensures Quoted(KID) == Ascii("\"kid\"")
  {
    QuotedWord(KID, Ascii("\"kid\""));
  }

  lemma Punctuation()
    ensures Ascii("{") == [OPEN_OBJECT] && Ascii("}") == [CLOSE_OBJECT]
    ensures Ascii(":") == [COLON] && Ascii(",") == [COMMA]
  {
  }

  lemma QuotedKid(kid: Text)
    requires KidForm(kid)
    ensures Quoted(kid) == Ascii("\"") + kid + Ascii("\"")
  {
    QuotedWord(kid, Ascii("\"") + kid + Ascii("\""));
  }

  /** The header's text: the algorithm, then the kid. */
  lemma HeaderTextIs(kid: Text)
    requires KidForm(kid)
    ensures HeaderText(kid) ==
            Ascii("{") + (Ascii("\"alg\"") + Ascii(":") + Ascii("\"EdDSA\"") + Ascii(",")
                          + (Ascii("\"kid\"") + Ascii(":") + (Ascii("\"") + kid + Ascii("\"")))) + Ascii("}")
  {
    AlgWord();
    EddsaWord();
    KidWord();
    QuotedKid(kid);
    Punctuation();
  }

  /** Signing fails only without a provenance object, or when the header or the canonical text cannot be written. */
  lemma SignsIff(lib: Library, document: Members, secret: Bytes, kid: Text)
    ensures Signing.Sign(lib, document, secret, kid) == Err(NoProvenance) <==>
            forall p :: !Has(document, Ascii("provenance"), Obj(p))
    ensures Signing.Sign(lib, document, secret, kid).Ok? <==>
            && Provenance(document).Some? && lib.utf8(HeaderText(kid)).Some?
            && Serializable(Body(document)) && lib.utf8(Serialize(Body(document))).Some?
  {
    if p :| Has(document, Ascii("provenance"), Obj(p)) { FoundIsFirst(document, Ascii("provenance"), Obj(p)); }
    if Provenance(document).Some? { FoundIsFirst(document, Ascii("provenance"), Obj(Provenance(document).value)); }
  }

  /** The base64url texts of header and payload, and of the signature over both with a dot between. */
  lemma SignedTextIs(lib: Library, document: Members, secret: Bytes, kid: Text)
    requires DistinctKeys(document) && Signing.Sign(lib, document, secret, kid).Ok?
    requires Provenance(document).Some? && DistinctKeys(Provenance(document).value)
    ensures lib.utf8(HeaderText(kid)).Some? && Serializable(Body(document)) && lib.utf8(Serialize(Body(document))).Some?
    ensures var header := lib.encode(lib.utf8(HeaderText(kid)).value);
      var payload := lib.encode(lib.utf8(Serialize(Body(document))).value);
      var message := header + Ascii(".") + payload;
      SignatureText(Signing.Sign(lib, document, secret, kid).value) ==
      Some(message + Ascii(".") + lib.encode(lib.sign(secret, message)))
  {
    SignedCarries(lib, document, secret, kid);
    assert Ascii(".") == [DOT];
  }

  // ---- the same document but for the signature ----

  /** One has the names of the other and under each the same value, one name aside. */
  ghost predicate SameMembers(a: Members, b: Members, except: Text) {
    && (forall m :: m in a && m.key != except ==> exists n :: n in b && n.key == m.key && Same(m.value, n.value))
    && (forall n :: n in b && n.key != except ==> exists m :: m in a && m.key == n.key)
  }

  /** The same members, those of the provenance included, but perhaps another signature. */
  ghost predicate SameButSignature(document: Members, envelope: Members) {
    && SameMembers(document, envelope, Ascii("provenance"))
    && exists p, q ::
         && Has(document, Ascii("provenance"), Obj(p)) && Has(envelope, Ascii("provenance"), Obj(q))
         && SameMembers(p, q, Ascii("signature"))
  }

  /** A value of one and a value of the other: a relation passed by name, so that its meaning stays out of the way. */
  type Relation = (Json, Json) -> bool

  /** Every member has its counterpart of the same name, with a related value. */
  ghost predicate Answered(same: Relation, m: Entry<Json>, b: Members) {
    exists n :: n in b && n.key == m.key && same(m.value, n.value)
  }

  ghost predicate Named(key: Text, a: Members) { exists m :: m in a && m.key == key }

  /** Equal names with related values, over all members. */
  ghost predicate Agree(same: Relation, a: Members, b: Members) {
    (forall m :: m in a ==> Answered(same, m, b)) && (forall n :: n in b ==> Named(n.key, a))
  }

  lemma SameObjects(same: Relation, a: Members, b: Members)
    requires DistinctKeys(a) && DistinctKeys(b)
    requires forall v, w :: same(v, w) <==> Same(v, w)
    ensures Same(Obj(a), Obj(b)) <==> Agree(same, a, b)
  {
    if Agree(same, a, b) {
      forall i | 0 <= i < |a| ensures HasName(b, a[i].key) { assert Answered(same, a[i], b); }
      forall i | 0 <= i < |b| ensures HasName(a, b[i].key) { assert Named(b[i].key, a); }
      forall i, j | 0 <= i < |a| && 0 <= j < |b| && a[i].key == b[j].key ensures Same(a[i].value, b[j].value) {
        assert Answered(same, a[i], b);
      }
    }
    if Same(Obj(a), Obj(b)) {
      forall m | m in a ensures Answered(same, m, b) {
        var i :| 0 <= i < |a| && a[i] == m;
        assert HasName(b, a[i].key);
        var j :| 0 <= j < |b| && b[j].key == m.key;
        assert b[j] in b && same(m.value, b[j].value);
      }
      forall n | n in b ensures Named(n.key, a) {
        var i :| 0 <= i < |b| && b[i] == n;
        assert HasName(a, b[i].key);
      }
    }
  }

  ghost predicate AgreeBut(same: Relation, a: Members, b: Members, key: Text) {
    && (forall m :: m in a && m.key != key ==> Answered(same, m, b))
    && (forall n :: n in b && n.key != key ==> Named(n.key, a))
  }

  lemma AnsweredWithout(same: Relation, m: Entry<Json>, b: Members, s: Members, key: Text)
    requires m.key != key && Leaves(s, b, key)
    ensures Answered(same, m, s) <==> Answered(same, m, b)
  {
  }

  lemma NamedWithout(name: Text, a: Members, r: Members, key: Text)
    requires name != key && Leaves(r, a, key)
    ensures Named(name, r) <==> Named(name, a)
  {
  }

  lemma AgreeWithout(same: Relation, a: Members, b: Members, r: Members, s: Members, key: Text)
    requires Leaves(r, a, key) && Leaves(s, b, key)
    ensures Agree(same, r, s) <==> AgreeBut(same, a, b, key)
  {
    forall m: Entry<Json> | m.key != key ensures Answered(same, m, s) <==> Answered(same, m, b) {
      AnsweredWithout(same, m, b, s, key);
    }
    forall name | name != key ensures Named(name, r) <==> Named(name, a) { NamedWithout(name, a, r, key); }
  }

  lemma AgreeButIs(same: Relation, a: Members, b: Members, key: Text)
    requires forall v, w :: same(v, w) <==> Same(v, w)
    ensures AgreeBut(same, a, b, key) <==> SameMembers(a, b, key)
  {
  }

  lemma AgreeMore(same: Relation, a: Members, b: Members, x: Entry<Json>, y: Entry<Json>)
    requires Agree(same, a, b) && x.key == y.key && same(x.value, y.value)
    ensures Agree(same, a + [x], b + [y])
  {
    assert x in a + [x] && y in b + [y];
    forall m | m in a + [x] ensures Answered(same, m, b + [y]) {
      if m in a {
        assert Answered(same, m, b);
        var n :| n in b && n.key == m.key && same(m.value, n.value);
        assert n in b + [y];
      }
    }
    forall n | n in b + [y] ensures Named(n.key, a + [x]) {
      if n in b {
        assert Named(n.key, a);
        var m :| m in a && m.key == n.key;
        assert m in a + [x];
      }
    }
  }

  lemma AgreeLess(same: Relation, a: Members, b: Members, x: Entry<Json>, y: Entry<Json>)
    requires Agree(same, a + [x], b + [y]) && x.key == y.key
    requires (forall m :: m in a ==> m.key != x.key) && (forall n :: n in b ==> n.key != x.key)
    ensures Agree(same, a, b) && same(x.value, y.value)
  {
    forall m | m in a ensures Answered(same, m, b) {
      assert m in a + [x] && Answered(same, m, b + [y]);
    }
    forall n | n in b ensures Named(n.key, a) {
      assert n in b + [y] && Named(n.key, a + [x]);
    }
    assert x in a + [x] && Answered(same, x, b + [y]);
  }

  lemma AgreeOneMore(same: Relation, a: Members, b: Members, key: Text, v: Json, w: Json)
    requires (forall m :: m in a ==> m.key != key) && (forall n :: n in b ==> n.key != key)
    ensures Agree(same, a + [Entry(key, v)], b + [Entry(key, w)]) <==> Agree(same, a, b) && same(v, w)
  {
    if Agree(same, a, b) && same(v, w) { AgreeMore(same, a, b, Entry(key, v), Entry(key, w)); }
    if Agree(same, a + [Entry(key, v)], b + [Entry(key, w)]) {
      AgreeLess(same, a, b, Entry(key, v), Entry(key, w));
    }
  }

  /** Two bodies are the same value exactly when their documents are the same but for the signature. */
  lemma SameBodies(document: Members, envelope: Members)
    requires WellFormed(Obj(document)) && WellFormed(Obj(envelope))
    requires Provenance(document).Some? && Provenance(envelope).Some?
    ensures Same(Body(document), Body(envelope)) <==> SameButSignature(document, envelope)
  {
    var p, q := Provenance(document).value, Provenance(envelope).value;
    var a, b := Without(document, PROVENANCE), Without(envelope, PROVENANCE);
    var r, s := Without(p, SIGNATURE), Without(q, SIGNATURE);
    var same: Relation := (v, w) => Same(v, w);
    BodyWellFormed(document);
    BodyWellFormed(envelope);
    SameObjects(same, Body(document).members, Body(envelope).members);
    LeavesWithout(document, PROVENANCE);
    LeavesWithout(envelope, PROVENANCE);
    AgreeOneMore(same, a, b, PROVENANCE, Obj(r), Obj(s));
    AgreeWithout(same, document, envelope, a, b, PROVENANCE);
    AgreeButIs(same, document, envelope, PROVENANCE);
    InnerObjects(document, p);
    InnerObjects(envelope, q);
    SameObjects(same, r, s);
    LeavesWithout(p, SIGNATURE);
    LeavesWithout(q, SIGNATURE);
    AgreeWithout(same, p, q, r, s, SIGNATURE);
    AgreeButIs(same, p, q, SIGNATURE);
    ProvenanceIs(document, p);
    ProvenanceIs(envelope, q);
  }

  lemma InnerObjects(document: Members, p: Members)
    requires WellFormed(Obj(document)) && Provenance(document) == Some(p)
    ensures DistinctKeys(Without(p, SIGNATURE))
  {
    FindMember(document, PROVENANCE);
    WithoutDistinct(p, SIGNATURE);
  }

  lemma ProvenanceIs(document: Members, p: Members)
    requires Provenance(document) == Some(p)
    ensures forall q :: Has(document, Ascii("provenance"), Obj(q)) <==> q == p
  {
    forall q ensures Has(document, Ascii("provenance"), Obj(q)) <==> q == p {
      FoundIsFirst(document, Ascii("provenance"), Obj(q));
    }
  }

  /**
   * An envelope that carries the signature of another document is accepted only if it is that document but for the
   * signature, and then it is, under the kid it was signed with, when names are clear.
   */
  lemma MovedSignatureIs(lib: Library, directory: map<Text, Bytes>, document: Members, secret: Bytes, kid: Text,
                         envelope: Members)
    requires Correct(lib) && KidForm(kid) && kid in directory && directory[kid] == lib.publicOf(secret)
    requires WellFormed(Obj(document)) && WellFormed(Obj(envelope)) && Signing.Sign(lib, document, secret, kid).Ok?
    requires SignatureText(envelope) == SignatureText(Signing.Sign(lib, document, secret, kid).value)
    ensures Outcome(lib, directory, envelope).Ok? ==>
              Outcome(lib, directory, envelope) == Ok(kid) && SameButSignature(document, envelope)
    ensures Provenance(document).Some? && ClearNames(Body(document)) && SameButSignature(document, envelope) ==>
              Outcome(lib, directory, envelope) == Ok(kid)
  {
    KidFormIff(kid);
    MovedSignature(lib, directory, document, secret, kid, envelope);
    SameBodies(document, envelope);
  }
}

/** Libraries of the kind the signature theorems rely on do exist. */
module SigningLibrary {
  import opened Wrappers
  import opened ByteStrings
  import opened Decimals
  import opened Jcs
  import opened Signing

  // ---- an encoding over letters ----

  /** Two letters for each byte. */
  function Letters(b: Bytes): (t: Text)
    ensures |t| == 2 * |b| && forall i :: 0 <= i < |t| ==> 65 <= t[i] < 81
  {
    if b == [] then [] else [65 + b[0] / 16, 65 + b[0] % 16] + Letters(b[1..])
  }

  function FromLetters(t: Text): Option<Bytes> {
    if t == [] then Some([])
    else if |t| == 1 || !(65 <= t[0] < 81) || !(65 <= t[1] < 81) then None
    else
      var rest := FromLetters(t[2..]);
      if rest.None? then None else Some([16 * (t[0] - 65) + (t[1] - 65)] + rest.value)
  }

  lemma {:induction false} LettersRead(b: Bytes)
    ensures FromLetters(Letters(b)) == Some(b)
  {
    if b != [] {
      LettersRead(b[1..]);
      assert Letters(b)[2..] == Letters(b[1..]);
      assert b == [b[0]] + b[1..];
    }
  }

  // ---- an encoding of texts ----

  /** Three bytes for each code point. */
  function Wide(t: Text): (b: Bytes)
    ensures |b| == 3 * |t|
  {
    if t == [] then [] else [t[0] / 65536, t[0] / 256 % 256, t[0] % 256] + Wide(t[1..])
  }

  function FromWide(b: Bytes): Option<Text> {
    if b == [] then Some([])
    else if |b| < 3 || b[0] > 16 then None
    else
      var rest := FromWide(b[3..]);
      var high: int, middle: int, low: int := b[0], b[1], b[2];
      if rest.None? then None else Some([65536 * high + 256 * middle + low] + rest.value)
  }

  lemma {:induction false} WideReads(t: Text)
    ensures FromWide(Wide(t)) == Some(t)
  {
    if t != [] {
      WideReads(t[1..]);
      assert Wide(t)[3..] == Wide(t[1..]);
      assert t == [t[0]] + t[1..];
    }
  }

  function LoadsWide(b: Bytes): Option<Json> {
    var t := FromWide(b);
    if t.None? then None else Loads(t.value)
  }

  /** Keys and signatures of this library: a signature repeats the key and the message. */
  function Signature(key: Bytes, message: Text): Bytes { [1] + key + Wide(message) }

  function Sample(): Library {
    Library(secret => secret, (secret, message) => Signature(secret, message),
            (key, signature, message) => signature == Signature(key, message),
            b => Letters(b), t => FromLetters(t), t => Some(Wide(t)), b => LoadsWide(b))
  }

  /** The assumptions of `Correct` can be met. */
  lemma SampleIsCorrect()
    ensures Correct(Sample())
  {
    var lib := Sample();
    forall b ensures lib.decode(lib.encode(b)) == Some(b) { LettersRead(b); }
    forall t, u | lib.utf8(t) == lib.utf8(u) ensures t == u {
      WideReads(t);
      WideReads(u);
    }
    forall kid | IsKid(kid) ensures lib.loads(lib.utf8(HeaderText(kid)).value) == Loads(HeaderText(kid)) {
      WideReads(HeaderText(kid));
    }
  }
}

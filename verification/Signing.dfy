/** The TxRequest/TxAck signing loop (connected_device.rs) and the check of what comes back (tx_verify.rs).  The device
    is an arbitrary sequence of replies; transaction decoding, script derivation and message encoding are parameters. */
module Signing {
  import opened Prelude
  import opened Weight

  type Bytes = seq<nat>

  const DUST_LIMIT_SATOSHIS: nat := 546

  datatype SignInput = SignInput(prevHash: string, scriptType: ScriptType, scriptPubkey: Option<string>,
                                 origHash: Option<string>, origIndex: Option<nat>)

  datatype SignOutput = SignOutput(address: Option<string>, path: Option<string>, amount: nat, opReturn: Option<string>,
                                   origHash: Option<string>, origIndex: Option<nat>)

  /** The optional extra data of a previous transaction, as its hex decodes. */
  datatype Extra = NoExtra | ExtraBytes(bytes: Bytes) | BadHex

  datatype PrevTx = PrevTx(hash: string, inputCount: nat, outputCount: nat, extra: Extra)

  datatype Params = Params(inputs: seq<SignInput>, outputs: seq<SignOutput>, prevTxs: seq<PrevTx>, paymentRequests: nat)

  // ----- what the device says and what the host answers -----

  datatype RequestType =
    TxFinished | TxInput | TxOutput | TxMeta | TxOrigInput | TxOrigOutput | TxExtraData | TxPaymentReq

  datatype Details = Details(requestIndex: Option<nat>, txHash: Option<Bytes>, extraOffset: Option<nat>,
                             extraLen: Option<nat>)

  datatype Serialized = Serialized(signature: Option<Bytes>, signatureIndex: Option<nat>, txPart: Option<Bytes>)

  datatype Reply =
    | ButtonRequest
    | Failure
    | Undecodable
    | TxRequest(serialized: Option<Serialized>, requestType: RequestType, details: Option<Details>)

  datatype Message =
    | ButtonAck
    | InputAck(input: nat)
    | OutputAck(output: nat)
    | PrevMetaAck(prev: PrevTx)
    | PrevInputAck(prev: PrevTx, input: nat)
    | PrevOutputAck(prev: PrevTx, output: nat)
    | ExtraDataAck(chunk: Bytes)
    | PaymentRequestAck(request: nat)

  datatype SignError =
    | Transport | DeviceFailure | Undecoded | MissingHash | OutOfBounds | NoOriginal | BadExtraData | BadAck
    | PrevNotFound(hash: Bytes) | InvalidTransaction

  function Or<T>(o: Option<T>, default: T): T {
    if o.Some? then o.value else default
  }

  // ----- hashes as text -----

  function HexDigit(d: nat): char {
    if d < 10 then '0' + d as char else if d < 16 then 'a' + (d - 10) as char else '?'
  }

  function Hex(bytes: Bytes): string {
    if bytes == [] then []
    else
      var last := bytes[|bytes| - 1];
      Hex(bytes[..|bytes| - 1]) + [HexDigit(last / 16), HexDigit(last % 16)]
  }

  const HEX_DIGITS := "0123456789abcdef"

  /** `text` is `bytes` in hexadecimal: two lower-case digits for each byte, the high half first. */
  predicate InHex(text: string, bytes: Bytes) {
    && |text| == 2 * |bytes|
    && forall i :: 0 <= i < |bytes| && bytes[i] < 256 ==>
                     text[2 * i] == HEX_DIGITS[bytes[i] / 16] && text[2 * i + 1] == HEX_DIGITS[bytes[i] % 16]
  }

  lemma {:induction false} HexExactly(bytes: Bytes)
    ensures InHex(Hex(bytes), bytes)
  {
    if bytes != [] {
      var n := |bytes| - 1;
      HexExactly(bytes[..n]);
      forall i | 0 <= i < |bytes| && bytes[i] < 256
        ensures Hex(bytes)[2 * i] == HEX_DIGITS[bytes[i] / 16] && Hex(bytes)[2 * i + 1] == HEX_DIGITS[bytes[i] % 16]
      {
        if i < n {
          assert bytes[..n][i] == bytes[i];
        } else {
          DigitsOfByte(bytes[n]);
        }
      }
    }
  }

  lemma DigitsOfByte(b: nat)
    requires b < 256
    ensures HexDigit(b / 16) == HEX_DIGITS[b / 16] && HexDigit(b % 16) == HEX_DIGITS[b % 16]
  {
    NibbleDigit(b / 16);
    NibbleDigit(b % 16);
  }

  lemma NibbleDigit(d: nat)
    requires d < 16
    ensures HexDigit(d) == HEX_DIGITS[d]
  {
  }

  function Nibble(c: char): nat {
    if '0' <= c <= '9' then c as nat - '0' as nat else if 'a' <= c <= 'f' then c as nat - 'a' as nat + 10 else 0
  }

  function FromHex(text: string): Bytes {
    seq(|text| / 2, i requires 0 <= i < |text| / 2 => 16 * Nibble(text[2 * i]) + Nibble(text[2 * i + 1]))
  }

  lemma NibbleRoundTrip(d: nat)
    requires d < 16
    ensures Nibble(HEX_DIGITS[d]) == d
  {
  }

  /** What is in hexadecimal decodes to the bytes, so no two byte strings have the same text. */
  lemma HexRoundTrip(bytes: Bytes)
    requires forall i :: 0 <= i < |bytes| ==> bytes[i] < 256
    ensures FromHex(Hex(bytes)) == bytes
  {
    HexExactly(bytes);
    DecodesInHex(Hex(bytes), bytes);
  }

  lemma DecodesInHex(text: string, bytes: Bytes)
    requires InHex(text, bytes) && forall i :: 0 <= i < |bytes| ==> bytes[i] < 256
    ensures FromHex(text) == bytes
  {
    hide Nibble;
    assert |text| / 2 == |bytes|;
    forall i | 0 <= i < |bytes| ensures FromHex(text)[i] == bytes[i] {
      var (high, low) := (HEX_DIGITS[bytes[i] / 16], HEX_DIGITS[bytes[i] % 16]);
      assert text[2 * i] == high && text[2 * i + 1] == low;
      ByteRoundTrip(bytes[i]);
    }
  }

  lemma ByteRoundTrip(b: nat)
    requires b < 256
    ensures 16 * Nibble(HEX_DIGITS[b / 16]) + Nibble(HEX_DIGITS[b % 16]) == b
  {
    hide Nibble;
    NibbleRoundTrip(b / 16);
    NibbleRoundTrip(b % 16);
  }

  function Lower(s: string): string {
    seq(|s|, i requires 0 <= i < |s| => LowerChar(s[i]))
  }

  /** `eq_ignore_ascii_case`. */
  predicate SameHash(a: string, b: string) {
    Lower(a) == Lower(b)
  }

  /** Two hashes are the same when they differ in the case of ASCII letters at most. */
  lemma SameHashExactly(a: string, b: string)
    ensures SameHash(a, b)
            <==> |a| == |b| && forall i :: 0 <= i < |a| ==>
                                 || a[i] == b[i]
                                 || ('A' <= a[i] <= 'Z' && b[i] as int == a[i] as int + 32)
                                 || ('A' <= b[i] <= 'Z' && a[i] as int == b[i] as int + 32)
  {
    if SameHash(a, b) {
      assert |a| == |Lower(a)| == |b|;
      forall i | 0 <= i < |a| ensures LowerChar(a[i]) == LowerChar(b[i]) {
        assert Lower(a)[i] == Lower(b)[i];
      }
    }
  }

  function FindFrom(prevTxs: seq<PrevTx>, hash: string): Option<PrevTx> {
    if prevTxs == [] then None
    else if SameHash(prevTxs[0].hash, hash) then Some(prevTxs[0])
    else FindFrom(prevTxs[1..], hash)
  }

  /** `find_prev_tx`. */
  function FindPrevTx(p: Params, hash: Bytes): Option<PrevTx> {
    FindFrom(p.prevTxs, Hex(hash))
  }

  // ----- validation before anything is sent -----

  predicate Streamed(input: SignInput) {
    !input.scriptType.SpendTaproot? && !input.scriptType.External?
  }

  ghost predicate Provided(p: Params, input: SignInput) {
    exists k :: 0 <= k < |p.prevTxs| && SameHash(p.prevTxs[k].hash, input.prevHash)
  }

  lemma LowerTwice(s: string)
    ensures Lower(Lower(s)) == Lower(s)
  {
  }

  /** Lines 1636-1652: the hashes of streamed inputs without a previous transaction, each once. */
  method MissingPrevTxs(p: Params) returns (missing: seq<string>)
    ensures missing == [] <==> forall i :: 0 <= i < |p.inputs| && Streamed(p.inputs[i]) ==> Provided(p, p.inputs[i])
    ensures forall i :: 0 <= i < |p.inputs| && Streamed(p.inputs[i]) && !Provided(p, p.inputs[i]) ==>
                          Lower(p.inputs[i].prevHash) in missing
    ensures forall m :: m in missing ==>
                          exists i :: 0 <= i < |p.inputs| && Streamed(p.inputs[i]) && !Provided(p, p.inputs[i])
                                      && Lower(p.inputs[i].prevHash) == m
    ensures forall i, j :: 0 <= i < j < |missing| ==> missing[i] != missing[j]
  {
    missing := [];
    for i := 0 to |p.inputs|
      invariant missing == [] <==> forall j :: 0 <= j < i && Streamed(p.inputs[j]) ==> Provided(p, p.inputs[j])
      invariant forall j :: 0 <= j < i && Streamed(p.inputs[j]) && !Provided(p, p.inputs[j]) ==>
                              Lower(p.inputs[j].prevHash) in missing
      invariant forall m :: m in missing ==>
                              exists j :: 0 <= j < i && Streamed(p.inputs[j]) && !Provided(p, p.inputs[j])
                                          && Lower(p.inputs[j].prevHash) == m
      invariant forall a, b :: 0 <= a < b < |missing| ==> missing[a] != missing[b]
    {
      var input := p.inputs[i];
      if !Streamed(input) {
        continue;
      }
      var hash := Lower(input.prevHash);
      LowerTwice(input.prevHash);
      var provided := exists k :: 0 <= k < |p.prevTxs| && SameHash(p.prevTxs[k].hash, hash);
      if !provided && hash !in missing {
        missing := missing + [hash];
      }
    }
  }

  function SpendableTotal(outputs: seq<SignOutput>): nat {
    if outputs == [] then 0
    else
      var o := outputs[|outputs| - 1];
      SpendableTotal(outputs[..|outputs| - 1]) + if o.opReturn.Some? then 0 else o.amount
  }

  /** Lines 502-523 and `validate_sign_tx_params`, but for the two checks that decode: whether every address parses and
      whether every previous transaction hashes to what it declares are `addressesOk` and `hashesOk`. */
  method Validate(p: Params, addressesOk: bool, hashesOk: bool) returns (ok: bool)
    ensures ok <==>
            && (forall i :: 0 <= i < |p.outputs| ==>
                              var o := p.outputs[i];
                              || (o.address.Some? && o.path.None? && o.opReturn.None?)
                              || (o.address.None? && o.path.Some? && o.opReturn.None?)
                              || (o.address.None? && o.path.None? && o.opReturn.Some? && o.amount == 0))
            && ((exists i :: 0 <= i < |p.outputs| && p.outputs[i].opReturn.None?) ==>
                  SpendableTotal(p.outputs) >= 546)
            && (forall i :: 0 <= i < |p.inputs| && p.inputs[i].scriptType.External? ==> p.inputs[i].scriptPubkey.Some?)
            && addressesOk && hashesOk
            && (forall i :: 0 <= i < |p.inputs| && !p.inputs[i].scriptType.SpendTaproot?
                            && !p.inputs[i].scriptType.External? ==>
                              Provided(p, p.inputs[i]))
  {
    if exists i :: 0 <= i < |p.outputs| && !OneDestination(p.outputs[i]) {
      return false;
    }
    if (exists i :: 0 <= i < |p.outputs| && p.outputs[i].opReturn.None?)
       && SpendableTotal(p.outputs) < DUST_LIMIT_SATOSHIS {
      return false;
    }
    if exists i :: 0 <= i < |p.inputs| && p.inputs[i].scriptType.External? && p.inputs[i].scriptPubkey.None? {
      return false;
    }
    if !addressesOk {
      return false;
    }
    var missing := MissingPrevTxs(p);
    if missing != [] {
      return false;
    }
    ok := hashesOk;
  }

  predicate OneDestination(o: SignOutput) {
    && (if o.address.Some? then 1 else 0) + (if o.path.Some? then 1 else 0) + (if o.opReturn.Some? then 1 else 0) == 1
    && (o.opReturn.Some? ==> o.amount == 0)
  }

  // ----- the host -----

  datatype Host = Host(signatures: seq<string>, serialized: Bytes)

  datatype Next = Continue(host: Host, ack: Message) | Finish(host: Host) | Stop(error: SignError)

  /** Lines 641-661: keep a signature and append a part of the transaction; `None` when the index is out of bounds. */
  function Collect(h: Host, s: Option<Serialized>): Option<Host> {
    if s.None? then Some(h)
    else
      var s := s.value;
      var signed := s.signature.Some? && s.signatureIndex.Some?;
      if signed && s.signatureIndex.value >= |h.signatures| then None
      else
        var signatures :=
          if signed then h.signatures[s.signatureIndex.value := Hex(s.signature.value)] else h.signatures;
        Some(Host(signatures, h.serialized + Or(s.txPart, [])))
  }

  function FindOriginal(hashes: seq<(Option<string>, Option<nat>)>, hash: string, index: nat, i: nat): Option<nat>
    requires i <= |hashes|
    decreases |hashes| - i
  {
    if i == |hashes| then None
    else if hashes[i] == (Some(hash), Some(index)) then Some(i)
    else FindOriginal(hashes, hash, index, i + 1)
  }

  function InputOriginals(p: Params): seq<(Option<string>, Option<nat>)> {
    seq(|p.inputs|, i requires 0 <= i < |p.inputs| => (p.inputs[i].origHash, p.inputs[i].origIndex))
  }

  function OutputOriginals(p: Params): seq<(Option<string>, Option<nat>)> {
    seq(|p.outputs|, i requires 0 <= i < |p.outputs| => (p.outputs[i].origHash, p.outputs[i].origIndex))
  }

  function ExtraChunk(extra: Bytes, offset: nat, length: nat): Bytes {
    if offset < |extra| then
      var end := if offset + length < |extra| then offset + length else |extra|;
      extra[offset..end]
    else []
  }

  /** What answers a request, before encoding. */
  function Answer(p: Params, t: RequestType, details: Option<Details>): Result {
    if details.None? then Err(Undecoded)
    else
      var d := details.value;
      var idx := Or(d.requestIndex, 0);
      match t
      case TxFinished => Err(Undecoded)
      case TxInput =>
        if d.txHash.Some? then
          var prev := FindPrevTx(p, d.txHash.value);
          if prev.None? then Err(PrevNotFound(d.txHash.value))
          else if idx >= prev.value.inputCount then Err(OutOfBounds) else Ok(PrevInputAck(prev.value, idx))
        else if idx >= |p.inputs| then Err(OutOfBounds) else Ok(InputAck(idx))
      case TxOutput =>
        if d.txHash.Some? then
          var prev := FindPrevTx(p, d.txHash.value);
          if prev.None? then Err(PrevNotFound(d.txHash.value))
          else if idx >= prev.value.outputCount then Err(OutOfBounds) else Ok(PrevOutputAck(prev.value, idx))
        else if idx >= |p.outputs| then Err(OutOfBounds) else Ok(OutputAck(idx))
      case TxPaymentReq => if idx >= p.paymentRequests then Err(OutOfBounds) else Ok(PaymentRequestAck(idx))
      case _ => if d.txHash.None? then Err(MissingHash) else AnswerHashed(p, t, d, d.txHash.value)
  }

  /** The requests that must name a transaction. */
  function AnswerHashed(p: Params, t: RequestType, d: Details, hash: Bytes): Result {
    if t.TxOrigInput? || t.TxOrigOutput? then
      var originals := if t.TxOrigInput? then InputOriginals(p) else OutputOriginals(p);
      var i := FindOriginal(originals, Hex(hash), Or(d.requestIndex, 0), 0);
      if i.None? then Err(NoOriginal) else if t.TxOrigInput? then Ok(InputAck(i.value)) else Ok(OutputAck(i.value))
    else
      var prev := FindPrevTx(p, hash);
      if prev.None? then Err(PrevNotFound(hash))
      else if t.TxMeta? then Ok(PrevMetaAck(prev.value))
      else
        match prev.value.extra
        case NoExtra => Ok(ExtraDataAck([]))
        case BadHex => Err(BadExtraData)
        case ExtraBytes(bytes) => Ok(ExtraDataAck(ExtraChunk(bytes, Or(d.extraOffset, 0), Or(d.extraLen, 0))))
  }

  datatype Result = Ok(message: Message) | Err(error: SignError)

  /** One turn of the loop; `builds` says whether a message can be encoded. */
  function Handle(p: Params, builds: Message -> bool, h: Host, reply: Reply): Next {
    match reply
    case ButtonRequest => Continue(h, ButtonAck)
    case Failure => Stop(DeviceFailure)
    case Undecodable => Stop(Undecoded)
    case TxRequest(serialized, t, details) =>
      var h' := Collect(h, serialized);
      if h'.None? then Stop(OutOfBounds)
      else if t.TxFinished? then Finish(h'.value)
      else
        var a := Answer(p, t, details);
        if a.Err? then Stop(a.error) else if !builds(a.message) then Stop(BadAck) else Continue(h'.value, a.message)
  }

  datatype Outcome = Finished(host: Host, used: nat) | Stopped(error: SignError)

  /** The loop against a device that will send these replies and then fall silent. */
  function Converse(p: Params, builds: Message -> bool, h: Host, replies: seq<Reply>): Outcome
    decreases |replies|
  {
    if replies == [] then Stopped(Transport)
    else
      match Handle(p, builds, h, replies[0])
      case Stop(e) => Stopped(e)
      case Finish(h') => Finished(h', 1)
      case Continue(h', _) =>
        match Converse(p, builds, h', replies[1..])
        case Finished(h'', used) => Finished(h'', used + 1)
        case Stopped(e) => Stopped(e)
  }

  function Start(p: Params): Host {
    Host(seq(|p.inputs|, _ => ""), [])
  }

  // ----- verification of the returned transaction -----

  datatype TxOut = TxOut(value: nat, script: Bytes)
  datatype Transaction = Transaction(inputCount: nat, outputs: seq<TxOut>)

  function ExpectedAmount(o: SignOutput): nat {
    if o.opReturn.Some? then 0 else o.amount
  }

  /** The transaction is the one requested: counts, every amount, every script that could be derived. */
  predicate Matches(tx: Transaction, p: Params, expected: seq<Option<Bytes>>) {
    && tx.inputCount == |p.inputs| && |tx.outputs| == |p.outputs|
    && (forall i :: 0 <= i < |p.outputs| ==>
                      tx.outputs[i].value == if p.outputs[i].opReturn.Some? then 0 else p.outputs[i].amount)
    && (forall i :: 0 <= i < |p.outputs| && i < |expected| && expected[i].Some? ==>
                      tx.outputs[i].script == expected[i].value)
  }

  /** `verify_signed_tx`: exactly the matching transactions pass. */
  method VerifySignedTx(serialized: Bytes, decode: Bytes -> Option<Transaction>, p: Params,
                        expected: seq<Option<Bytes>>)
    returns (r: Option<Transaction>)
    ensures r == var tx := decode(serialized); if tx.Some? && Matches(tx.value, p, expected) then tx else None
  {
    var tx := decode(serialized);
    if tx.None? {
      return None;
    }
    if tx.value.inputCount != |p.inputs| {
      return None;
    }
    if |tx.value.outputs| != |p.outputs| {
      return None;
    }
    for i := 0 to |p.outputs|
      invariant forall j :: 0 <= j < i ==> tx.value.outputs[j].value == ExpectedAmount(p.outputs[j])
      invariant forall j :: 0 <= j < i && j < |expected| && expected[j].Some? ==>
                              tx.value.outputs[j].script == expected[j].value
    {
      if tx.value.outputs[i].value != ExpectedAmount(p.outputs[i]) {
        return None;
      }
      if i < |expected| && expected[i].Some? && tx.value.outputs[i].script != expected[i].value {
        return None;
      }
    }
    r := tx;
  }

  datatype SignResult =
    | Signed(signatures: seq<string>, serialized: Bytes, verified: Option<Transaction>)
    | Failed(error: SignError)

  function Closed(h: Host, decode: Bytes -> Option<Transaction>, p: Params, expected: Option<seq<Option<Bytes>>>)
    : SignResult
  {
    if expected.None? || h.serialized == [] then Signed(h.signatures, h.serialized, None)
    else
      var tx := decode(h.serialized);
      if tx.Some? && Matches(tx.value, p, expected.value) then Signed(h.signatures, h.serialized, tx)
      else Failed(InvalidTransaction)
  }

  function SignedBy(p: Params, builds: Message -> bool, decode: Bytes -> Option<Transaction>,
                    expected: Option<seq<Option<Bytes>>>, replies: seq<Reply>): SignResult
  {
    match Converse(p, builds, Start(p), replies)
    case Stopped(e) => Failed(e)
    case Finished(h, _) => Closed(h, decode, p, expected)
  }

  /** `sign_transaction` from the first reply on.  `expected` is `None` when serialization was declined. */
  method SignTransaction(p: Params, builds: Message -> bool, decode: Bytes -> Option<Transaction>,
                         expected: Option<seq<Option<Bytes>>>, replies: seq<Reply>) returns (r: SignResult)
    ensures r == SignedBy(p, builds, decode, expected, replies)
  {
    hide Handle, Closed;
    var h := Start(p);
    var k := 0;
    while true
      invariant k <= |replies|
      invariant SameEnding(Converse(p, builds, Start(p), replies), Converse(p, builds, h, replies[k..]))
      decreases |replies| - k
    {
      if k == |replies| {
        return Failed(Transport);
      }
      assert replies[k..][1..] == replies[k + 1..];
      match Handle(p, builds, h, replies[k]) {
        case Stop(e) => return Failed(e);
        case Finish(h') =>
          r := Close(h', decode, p, expected);
          return;
        case Continue(h', ack) =>
          h, k := h', k + 1;
      }
    }
  }

  ghost predicate SameEnding(a: Outcome, b: Outcome) {
    if a.Finished? then b.Finished? && a.host == b.host else a == b
  }

  /** Lines 956-990. */
  method Close(h: Host, decode: Bytes -> Option<Transaction>, p: Params, expected: Option<seq<Option<Bytes>>>)
    returns (r: SignResult)
    ensures r == Closed(h, decode, p, expected)
  {
    if expected.Some? && h.serialized != [] {
      var tx := VerifySignedTx(h.serialized, decode, p, expected.value);
      if tx.None? {
        return Failed(InvalidTransaction);
      }
      return Signed(h.signatures, h.serialized, tx);
    }
    r := Signed(h.signatures, h.serialized, None);
  }

  // ----- the answers -----

  /** The answer is about what was asked. */
  ghost predicate Answers(p: Params, t: RequestType, d: Details, m: Message) {
    var idx := Or(d.requestIndex, 0);
    match m
    case ButtonAck => false
    case InputAck(i) =>
      && i < |p.inputs|
      && (if t.TxInput? then d.txHash.None? && i == idx
          else t.TxOrigInput? && d.txHash.Some? && OriginalAt(InputOriginals(p), Hex(d.txHash.value), idx, i))
    case OutputAck(i) =>
      && i < |p.outputs|
      && (if t.TxOutput? then d.txHash.None? && i == idx
          else t.TxOrigOutput? && d.txHash.Some? && OriginalAt(OutputOriginals(p), Hex(d.txHash.value), idx, i))
    case PrevMetaAck(prev) => t.TxMeta? && IsPrev(p, d, prev)
    case PrevInputAck(prev, i) => t.TxInput? && IsPrev(p, d, prev) && i == idx < prev.inputCount
    case PrevOutputAck(prev, i) => t.TxOutput? && IsPrev(p, d, prev) && i == idx < prev.outputCount
    case ExtraDataAck(chunk) =>
      && t.TxExtraData?
      && exists prev :: IsPrev(p, d, prev) && !prev.extra.BadHex?
                        && chunk == ExtraChunk(if prev.extra.NoExtra? then [] else prev.extra.bytes,
                                               Or(d.extraOffset, 0), Or(d.extraLen, 0))
    case PaymentRequestAck(i) => t.TxPaymentReq? && i == idx < p.paymentRequests
  }

  /** The first of the given previous transactions with this hash. */
  ghost predicate FirstWith(prevTxs: seq<PrevTx>, hash: string, prev: PrevTx) {
    exists k :: 0 <= k < |prevTxs| && prevTxs[k] == prev && SameHash(prev.hash, hash)
                && forall j :: 0 <= j < k ==> !SameHash(prevTxs[j].hash, hash)
  }

  /** The previous transaction whose hash the device named. */
  ghost predicate IsPrev(p: Params, d: Details, prev: PrevTx) {
    d.txHash.Some? && FirstWith(p.prevTxs, Hex(d.txHash.value), prev)
  }

  ghost predicate OriginalAt(hashes: seq<(Option<string>, Option<nat>)>, hash: string, index: nat, i: nat) {
    && i < |hashes| && hashes[i] == (Some(hash), Some(index))
    && forall j :: 0 <= j < i ==> hashes[j] != (Some(hash), Some(index))
  }

  lemma {:induction false} FoundIsFirst(prevTxs: seq<PrevTx>, hash: string, prev: PrevTx)
    ensures FindFrom(prevTxs, hash) == Some(prev) <==> FirstWith(prevTxs, hash, prev)
  {
    hide Lower, SameHash;
    if prevTxs != [] {
      var first, rest := prevTxs[0], prevTxs[1..];
      FoundIsFirst(rest, hash, prev);
      if FirstWith(prevTxs, hash, prev) {
        var k :| 0 <= k < |prevTxs| && prevTxs[k] == prev && SameHash(prev.hash, hash)
                 && forall j :: 0 <= j < k ==> !SameHash(prevTxs[j].hash, hash);
        if k > 0 {
          assert rest[k - 1] == prev && forall j :: 0 <= j < k - 1 ==> !SameHash(rest[j].hash, hash);
        }
      }
      if FirstWith(rest, hash, prev) && !SameHash(first.hash, hash) {
        var k :| 0 <= k < |rest| && rest[k] == prev && SameHash(prev.hash, hash)
                 && forall j :: 0 <= j < k ==> !SameHash(rest[j].hash, hash);
        assert prevTxs[k + 1] == prev && forall j :: 0 <= j < k + 1 ==> !SameHash(prevTxs[j].hash, hash);
      }
    }
  }

  lemma {:induction false} OriginalIsFirst(hashes: seq<(Option<string>, Option<nat>)>, hash: string, index: nat, i: nat)
    requires i <= |hashes| && forall j :: 0 <= j < i ==> hashes[j] != (Some(hash), Some(index))
    ensures var r := FindOriginal(hashes, hash, index, i);
            if r.Some? then OriginalAt(hashes, hash, index, r.value)
            else forall j :: 0 <= j < |hashes| ==> hashes[j] != (Some(hash), Some(index))
    decreases |hashes| - i
  {
    if i < |hashes| && hashes[i] != (Some(hash), Some(index)) {
      OriginalIsFirst(hashes, hash, index, i + 1);
    }
  }

  lemma OriginalExactly(hashes: seq<(Option<string>, Option<nat>)>, hash: string, index: nat, i: nat)
    ensures FindOriginal(hashes, hash, index, 0) == Some(i) <==> OriginalAt(hashes, hash, index, i)
  {
    OriginalIsFirst(hashes, hash, index, 0);
  }

  /** A request is answered, and with what, exactly as `Answers` says: whenever the details, the transaction they name,
      the index within bounds and decodable extra data are all there, and never otherwise. */
  lemma AnswersExactly(p: Params, t: RequestType, d: Details, m: Message)
    ensures Answer(p, t, Some(d)) == Ok(m) <==> Answers(p, t, d, m)
  {
    hide FindFrom, Hex, SameHash, FindOriginal, ExtraChunk, OriginalAt, FirstWith;
    if d.txHash.Some? {
      AnswersHashed(p, t, d, m, d.txHash.value);
    }
  }

  lemma AnswersHashed(p: Params, t: RequestType, d: Details, m: Message, hash: Bytes)
    requires d.txHash == Some(hash)
    ensures Answer(p, t, Some(d)) == Ok(m) <==> Answers(p, t, d, m)
  {
    hide FindFrom, Hex, SameHash, FindOriginal, ExtraChunk, OriginalAt, FirstWith;
    var idx := Or(d.requestIndex, 0);
    if m.InputAck? {
      OriginalExactly(InputOriginals(p), Hex(hash), idx, m.input);
    } else if m.OutputAck? {
      OriginalExactly(OutputOriginals(p), Hex(hash), idx, m.output);
    } else if m.PrevMetaAck? || m.PrevInputAck? || m.PrevOutputAck? {
      FoundIsFirst(p.prevTxs, Hex(hash), m.prev);
    } else if m.ExtraDataAck? && t.TxExtraData? {
      forall prev ensures FindPrevTx(p, hash) == Some(prev) <==> IsPrev(p, d, prev) {
        FoundIsFirst(p.prevTxs, Hex(hash), prev);
      }
      NoExtraNoChunk(Or(d.extraOffset, 0), Or(d.extraLen, 0));
    }
    OriginalsInBounds(p, hash, idx);
  }

  lemma OriginalsInBounds(p: Params, hash: Bytes, idx: nat)
    ensures forall i: nat :: OriginalAt(InputOriginals(p), Hex(hash), idx, i) ==> i < |p.inputs|
    ensures forall i: nat :: OriginalAt(OutputOriginals(p), Hex(hash), idx, i) ==> i < |p.outputs|
  {
  }

  lemma NoExtraNoChunk(offset: nat, length: nat)
    ensures ExtraChunk([], offset, length) == []
  {
  }

  /** Extra data streamed piece by piece is the extra data: adjacent chunks join, and the whole is one chunk. */
  lemma ExtraChunksJoin(extra: Bytes, offset: nat, first: nat, second: nat)
    ensures ExtraChunk(extra, offset, first) + ExtraChunk(extra, offset + first, second)
            == ExtraChunk(extra, offset, first + second)
    ensures ExtraChunk(extra, 0, |extra|) == extra
    ensures forall i :: 0 <= i < first && offset + i < |extra| ==>
                          var chunk := ExtraChunk(extra, offset, first);
                          i < |chunk| && chunk[i] == extra[offset + i]
    ensures |ExtraChunk(extra, offset, first)|
            == if offset + first <= |extra| then first else if offset < |extra| then |extra| - offset else 0
  {
  }

  /** The messages the host sends in a conversation. */
  function Sent(p: Params, builds: Message -> bool, h: Host, replies: seq<Reply>): seq<Message>
    decreases |replies|
  {
    if replies == [] then []
    else
      match Handle(p, builds, h, replies[0])
      case Continue(h', ack) => [ack] + Sent(p, builds, h', replies[1..])
      case _ => []
  }

  /** In every conversation the `k`-th message answers the `k`-th reply: a button press, or exactly what was
      requested. */
  lemma {:induction false} EveryAnswerIsRight(p: Params, builds: Message -> bool, h: Host, replies: seq<Reply>, k: nat)
    requires k < |Sent(p, builds, h, replies)|
    ensures k < |replies|
    ensures var m := Sent(p, builds, h, replies)[k];
            match replies[k]
            case ButtonRequest => m == ButtonAck
            case TxRequest(_, t, details) => builds(m) && details.Some? && Answers(p, t, details.value, m)
            case _ => false
    decreases |replies|
  {
    hide Answers, Answer, Collect;
    var reply := replies[0];
    var n := Handle(p, builds, h, reply);
    if k > 0 {
      EveryAnswerIsRight(p, builds, n.host, replies[1..], k - 1);
    } else if reply.TxRequest? {
      assert reply.details.Some? by { NoDetailsNoAnswer(p, reply.requestType); }
      AnswersExactly(p, reply.requestType, reply.details.value, n.ack);
    }
  }

  lemma NoDetailsNoAnswer(p: Params, t: RequestType)
    ensures Answer(p, t, None).Err?
  {
  }

  // ----- what holds against every device -----

  /** The last signature the replies carry for input `i`. */
  function LastSignature(replies: seq<Reply>, i: nat): Option<Bytes> {
    if replies == [] then None
    else
      var r := replies[|replies| - 1];
      if r.TxRequest? && r.serialized.Some? && r.serialized.value.signature.Some?
         && r.serialized.value.signatureIndex == Some(i)
      then r.serialized.value.signature
      else LastSignature(replies[..|replies| - 1], i)
  }

  /** The transaction parts the replies carry, in order. */
  function Parts(replies: seq<Reply>): Bytes {
    if replies == [] then []
    else
      var r := replies[|replies| - 1];
      Parts(replies[..|replies| - 1])
      + if r.TxRequest? && r.serialized.Some? then Or(r.serialized.value.txPart, []) else []
  }

  /** A slot holds a signature in hex, or nothing. */
  predicate SlotHolds(slot: string, signature: Option<Bytes>) {
    if signature.None? then slot == "" else InHex(slot, signature.value)
  }

  /** The host holds what the replies so far carried. */
  ghost predicate Holds(p: Params, h: Host, seen: seq<Reply>) {
    && |h.signatures| == |p.inputs| && h.serialized == Parts(seen)
    && forall i :: 0 <= i < |p.inputs| ==> SlotHolds(h.signatures[i], LastSignature(seen, i))
  }

  lemma HandleHolds(p: Params, builds: Message -> bool, h: Host, seen: seq<Reply>, reply: Reply)
    requires Holds(p, h, seen)
    ensures var n := Handle(p, builds, h, reply); n.Stop? || Holds(p, n.host, seen + [reply])
  {
    hide Answer, Hex, InHex;
    if reply.TxRequest? && reply.serialized.Some? && reply.serialized.value.signature.Some? {
      HexExactly(reply.serialized.value.signature.value);
    }
    assert (seen + [reply])[..|seen|] == seen;
  }

  lemma {:induction false} ConverseHolds(p: Params, builds: Message -> bool, h: Host, seen: seq<Reply>,
                                         replies: seq<Reply>)
    requires Holds(p, h, seen)
    ensures var o := Converse(p, builds, h, replies);
            o.Finished? ==> o.used <= |replies| && Holds(p, o.host, seen + replies[..o.used])
    decreases |replies|
  {
    hide Handle, Holds;
    if replies != [] {
      HandleHolds(p, builds, h, seen, replies[0]);
      var n := Handle(p, builds, h, replies[0]);
      if n.Continue? {
        ConverseHolds(p, builds, n.host, seen + [replies[0]], replies[1..]);
        var o := Converse(p, builds, n.host, replies[1..]);
        if o.Finished? {
          assert (seen + [replies[0]]) + replies[1..][..o.used] == seen + replies[..o.used + 1];
        }
      } else {
        assert replies[..1] == [replies[0]];
      }
    }
  }

  /** Against every device: when signing succeeds, there is one signature slot for each input, holding the last
      signature sent for it; the bytes are all the parts sent, in order; and when a transaction id is returned, those
      bytes decode to a transaction with the requested input and output counts, every requested amount and every
      script that could be derived. */
  lemma SignedIsWhatWasAsked(p: Params, builds: Message -> bool, decode: Bytes -> Option<Transaction>,
                             expected: Option<seq<Option<Bytes>>>, replies: seq<Reply>) returns (used: nat)
    requires SignedBy(p, builds, decode, expected, replies).Signed?
    ensures used <= |replies|
    ensures var r := SignedBy(p, builds, decode, expected, replies);
            && |r.signatures| == |p.inputs|
            && (forall i :: 0 <= i < |p.inputs| ==> SlotHolds(r.signatures[i], LastSignature(replies[..used], i)))
            && r.serialized == Parts(replies[..used])
            && (r.verified.Some? <==> expected.Some? && r.serialized != [])
            && (r.verified.Some? ==> decode(r.serialized) == r.verified && Matches(r.verified.value, p, expected.value))
  {
    hide Handle, Matches;
    assert Holds(p, Start(p), []);
    ConverseHolds(p, builds, Start(p), [], replies);
    used := Converse(p, builds, Start(p), replies).used;
    assert [] + replies[..used] == replies[..used];
  }

  // ----- exactly when signing succeeds -----

  /** A signature that comes with an index comes for one of the inputs. */
  predicate Fits(p: Params, s: Option<Serialized>) {
    s.Some? && s.value.signature.Some? && s.value.signatureIndex.Some? ==> s.value.signatureIndex.value < |p.inputs|
  }

  /** A reply the host goes on from, sending `m`. */
  ghost predicate Proceeds(p: Params, builds: Message -> bool, reply: Reply, m: Message) {
    match reply
    case ButtonRequest => m == ButtonAck
    case TxRequest(s, t, details) => Fits(p, s) && details.Some? && Answers(p, t, details.value, m) && builds(m)
    case _ => false
  }

  ghost predicate GoesOn(p: Params, builds: Message -> bool, reply: Reply) {
    exists m :: Proceeds(p, builds, reply, m)
  }

  predicate Closes(p: Params, reply: Reply) {
    reply.TxRequest? && reply.requestType.TxFinished? && Fits(p, reply.serialized)
  }

  lemma HandleExactly(p: Params, builds: Message -> bool, h: Host, reply: Reply, m: Message)
    requires |h.signatures| == |p.inputs|
    ensures var n := Handle(p, builds, h, reply);
            && (n.Finish? <==> Closes(p, reply))
            && (n.Continue? && n.ack == m <==> Proceeds(p, builds, reply, m))
            && (!n.Stop? ==> |n.host.signatures| == |p.inputs|)
  {
    hide Answers, Answer, Hex;
    if reply.TxRequest? {
      NoDetailsNoAnswer(p, reply.requestType);
      if reply.details.Some? {
        AnswersExactly(p, reply.requestType, reply.details.value, m);
        FinishedIsNoQuestion(p, reply.details.value, m);
      }
    }
  }

  lemma FinishedIsNoQuestion(p: Params, d: Details, m: Message)
    ensures !Answers(p, TxFinished, d, m)
  {
  }

  /** Every reply but the last is one to go on from, and the last one closes. */
  ghost predicate Completes(p: Params, builds: Message -> bool, replies: seq<Reply>) {
    && replies != [] && Closes(p, replies[|replies| - 1])
    && forall j :: 0 <= j < |replies| - 1 ==> GoesOn(p, builds, replies[j])
  }

  lemma CompletesStep(p: Params, builds: Message -> bool, reply: Reply, rest: seq<Reply>)
    ensures Completes(p, builds, [reply] + rest)
            <==> if rest == [] then Closes(p, reply) else GoesOn(p, builds, reply) && Completes(p, builds, rest)
  {
    hide Closes, GoesOn;
    var all := [reply] + rest;
    assert all[|all| - 1] == if rest == [] then reply else rest[|rest| - 1];
    if rest != [] && Completes(p, builds, all) {
      assert GoesOn(p, builds, all[0]);
      forall j | 0 <= j < |rest| - 1 ensures GoesOn(p, builds, rest[j]) {
        assert all[j + 1] == rest[j];
      }
    }
    if rest != [] && GoesOn(p, builds, reply) && Completes(p, builds, rest) {
      forall j | 0 <= j < |all| - 1 ensures GoesOn(p, builds, all[j]) {
        assert j > 0 ==> all[j] == rest[j - 1];
      }
    }
  }

  lemma ContinuesExactly(p: Params, builds: Message -> bool, h: Host, reply: Reply)
    requires |h.signatures| == |p.inputs|
    ensures var n := Handle(p, builds, h, reply);
            && (n.Finish? <==> Closes(p, reply))
            && (n.Continue? <==> GoesOn(p, builds, reply))
            && (n.Continue? ==> |n.host.signatures| == |p.inputs|)
  {
    hide Handle, Closes, Proceeds;
    var n := Handle(p, builds, h, reply);
    HandleExactly(p, builds, h, reply, if n.Continue? then n.ack else ButtonAck);
    forall m ensures Proceeds(p, builds, reply, m) ==> n.Continue? {
      HandleExactly(p, builds, h, reply, m);
    }
  }

  /** The loop ends after the shortest list of replies that completes, and only then. */
  lemma {:induction false} ConverseExactly(p: Params, builds: Message -> bool, h: Host, replies: seq<Reply>, used: nat)
    requires |h.signatures| == |p.inputs|
    ensures Converse(p, builds, h, replies).Finished? && Converse(p, builds, h, replies).used == used
            <==> used <= |replies| && Completes(p, builds, replies[..used])
    decreases |replies|
  {
    hide Handle, Closes, GoesOn, Completes;
    assert !Completes(p, builds, []) by { NothingCompletes(p, builds); }
    if replies != [] && used > 0 {
      var n := Handle(p, builds, h, replies[0]);
      ContinuesExactly(p, builds, h, replies[0]);
      if n.Continue? {
        ConverseExactly(p, builds, n.host, replies[1..], used - 1);
      }
      if used <= |replies| {
        CompletesStep(p, builds, replies[0], replies[1..][..used - 1]);
        assert replies[..used] == [replies[0]] + replies[1..][..used - 1];
      }
    }
  }

  lemma NothingCompletes(p: Params, builds: Message -> bool)
    ensures !Completes(p, builds, [])
  {
  }

  /** Signing succeeds exactly when the device's replies, up to one that finishes, can all be answered and name inputs
      there are, and the bytes they carry, if they are to be checked, decode to the transaction that was requested. */
  lemma SignedExactly(p: Params, builds: Message -> bool, decode: Bytes -> Option<Transaction>,
                      expected: Option<seq<Option<Bytes>>>, replies: seq<Reply>)
    ensures SignedBy(p, builds, decode, expected, replies).Signed?
            <==> exists used :: 0 <= used <= |replies| && Completes(p, builds, replies[..used])
                                && Passes(decode, p, expected, Parts(replies[..used]))
  {
    hide Handle, Matches, Completes, Parts;
    assert Holds(p, Start(p), []) by { NothingHeld(p); }
    ConverseHolds(p, builds, Start(p), [], replies);
    var o := Converse(p, builds, Start(p), replies);
    if o.Finished? {
      ConverseExactly(p, builds, Start(p), replies, o.used);
      assert [] + replies[..o.used] == replies[..o.used];
    }
    forall used | 0 <= used <= |replies| && Completes(p, builds, replies[..used])
      ensures o.Finished? && o.used == used
    {
      ConverseExactly(p, builds, Start(p), replies, used);
    }
  }

  /** What came back is not to be checked, is empty, or is the transaction requested. */
  predicate Passes(decode: Bytes -> Option<Transaction>, p: Params, expected: Option<seq<Option<Bytes>>>,
                   bytes: Bytes)
  {
    expected.Some? && bytes != [] ==> decode(bytes).Some? && Matches(decode(bytes).value, p, expected.value)
  }

  lemma NothingHeld(p: Params)
    ensures Holds(p, Start(p), [])
  {
  }

  lemma {:induction false} FindsProvided(prevTxs: seq<PrevTx>, k: nat, hash: string)
    requires k < |prevTxs| && SameHash(prevTxs[k].hash, hash)
    ensures FindFrom(prevTxs, hash).Some? && SameHash(FindFrom(prevTxs, hash).value.hash, hash)
  {
    hide Lower;
    if !SameHash(prevTxs[0].hash, hash) {
      FindsProvided(prevTxs[1..], k - 1, hash);
    }
  }

  lemma AnswerNotFound(p: Params, builds: Message -> bool, h: Host, reply: Reply, hash: Bytes)
    requires Handle(p, builds, h, reply) == Stop(PrevNotFound(hash))
    ensures FindPrevTx(p, hash).None?
  {
    hide FindFrom, Hex, Collect;
  }

  lemma {:induction false} ConverseNotFound(p: Params, builds: Message -> bool, h: Host, replies: seq<Reply>,
                                            hash: Bytes)
    requires Converse(p, builds, h, replies) == Stopped(PrevNotFound(hash))
    ensures FindPrevTx(p, hash).None?
    decreases |replies|
  {
    hide Handle, FindPrevTx;
    var n := Handle(p, builds, h, replies[0]);
    if n.Continue? {
      ConverseNotFound(p, builds, n.host, replies[1..], hash);
    } else {
      AnswerNotFound(p, builds, h, replies[0], hash);
    }
  }

  /** After validation no request, of any device, that names the previous hash of a streamed input ends the session
      with "not found". */
  lemma StreamedHashesAreFound(p: Params, builds: Message -> bool, decode: Bytes -> Option<Transaction>,
                               expected: Option<seq<Option<Bytes>>>, replies: seq<Reply>, hash: Bytes, i: nat)
    requires forall j :: 0 <= j < |p.inputs| && Streamed(p.inputs[j]) ==> Provided(p, p.inputs[j])
    requires i < |p.inputs| && Streamed(p.inputs[i]) && SameHash(Hex(hash), p.inputs[i].prevHash)
    ensures SignedBy(p, builds, decode, expected, replies) != Failed(PrevNotFound(hash))
  {
    hide Handle, Lower, Hex, Matches;
    var k :| 0 <= k < |p.prevTxs| && SameHash(p.prevTxs[k].hash, p.inputs[i].prevHash);
    FindsProvided(p.prevTxs, k, Hex(hash));
    if Converse(p, builds, Start(p), replies) == Stopped(PrevNotFound(hash)) {
      ConverseNotFound(p, builds, Start(p), replies, hash);
    }
  }
}

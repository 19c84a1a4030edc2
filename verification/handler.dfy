/** The webhook intake gate of handlers/handler.go: `ServeHTTP` decides, from the request
    method, the `X-GitHub-Event` header, the configured secret and the `X-Hub-Signature`
    header, what is logged and whether the decoded issue event is handed to `handleIssues`.
    HMAC-SHA1 is a parameter; the `sha1=` + lower-case hex rendering and the byte comparison
    are modelled concretely. */
module Handler {
  import opened Results
  import opened Text
  import opened Models

  /** A SHA-1 sized digest. */
  type Digest = d: seq<byte> | |d| == 20 witness seq(20, _ => 0 as byte)

  /** HMAC-SHA1 keyed with the secret (first argument) over a message (second argument). */
  type Mac = (seq<byte>, seq<byte>) -> Digest

  /** The parts of `Handler` the gate reads: the story repository and the shared secret. */
  datatype Config = Config(storyRepo: string, secret: seq<byte>)

  /** An incoming request; `verb` is the HTTP method. `decoded` is what `json.Decoder` makes of the body and
      `decoderRead` how many bytes of the body the decoder pulled through the digest
      before it stopped; both come from code outside this model. */
  datatype Request = Request(
    verb: string,
    event: string,
    signature: seq<byte>,
    body: seq<byte>,
    decoded: IssueEvent,
    decoderRead: nat)

  /** The `go handleIssues(...)` call the gate makes, with its arguments. */
  datatype Dispatch = Dispatch(storyRepo: string, event: IssueEvent)

  /** What one request leaves behind: the logged lines, in order, and the dispatch if any. */
  datatype Outcome = Outcome(logs: seq<string>, dispatched: Option<Dispatch>)

  /** Bitwise exclusive or of two naturals, from the least significant bit up. */
  function BitXor(a: nat, b: nat): (x: nat)
    decreases a + b
  {
    if a == 0 && b == 0 then 0
    else 2 * BitXor(a / 2, b / 2) + (if a % 2 == b % 2 then 0 else 1)
  }

  /** Bitwise or of two naturals, from the least significant bit up. */
  function BitOr(a: nat, b: nat): (o: nat)
    decreases a + b
  {
    if a == 0 && b == 0 then 0
    else 2 * BitOr(a / 2, b / 2) + (if a % 2 == 0 && b % 2 == 0 then 0 else 1)
  }

  lemma {:induction false} XorZero(a: nat, b: nat)
    ensures BitXor(a, b) == 0 <==> a == b
    decreases a + b
  {
    if a != 0 || b != 0 {
      XorZero(a / 2, b / 2);
    }
  }

  lemma {:induction false} OrZero(a: nat, b: nat)
    ensures BitOr(a, b) == 0 <==> a == 0 && b == 0
    decreases a + b
  {
    if a != 0 || b != 0 {
      OrZero(a / 2, b / 2);
    }
  }

  /** The accumulator of `subtle.ConstantTimeCompare` after folding `v |= x[i] ^ y[i]`
      over two equally long byte strings: zero exactly when they agree everywhere. */
  function DiffBits(x: seq<byte>, y: seq<byte>): (v: nat)
    requires |x| == |y|
    ensures v == 0 <==> x == y
    decreases |x|
  {
    if |x| == 0 then 0
    else
      var n := |x| - 1;
      var v := BitOr(DiffBits(x[..n], y[..n]), BitXor(x[n] as nat, y[n] as nat));
      OrZero(DiffBits(x[..n], y[..n]), BitXor(x[n] as nat, y[n] as nat));
      XorZero(x[n] as nat, y[n] as nat);
      assert x == y <==> x[..n] == y[..n] && x[n] == y[n] by {
        assert x == x[..n] + [x[n]] && y == y[..n] + [y[n]];
      }
      v
  }

  /** `hmac.Equal`: lengths must agree and the XOR accumulator must be zero. */
  function HmacEqual(x: seq<byte>, y: seq<byte>): (eq: bool)
    ensures eq <==> x == y
  {
    |x| == |y| && DiffBits(x, y) == 0
  }

  const SignaturePrefix: string := "sha1="

  /** The header value GitHub sends for a digest: `sha1=` and the digest in lower-case hex. */
  function ExpectedSignature(sum: Digest): (sig: seq<byte>)
    ensures |sig| == 45
  {
    var text := SignaturePrefix + HexLower(sum);
    assert IsAscii(text) by {
      forall i | 0 <= i < |text| ensures text[i] as int < 128 {
        if i >= 5 { assert IsLowerHex(text[i]); }
      }
    }
    AsciiBytes(text)
  }

  /** `verifySignature`: the header bytes must equal the expected signature exactly. */
  function VerifySignature(sum: Digest, sig: seq<byte>): (ok: bool)
    ensures ok <==> sig == ExpectedSignature(sum)
    ensures |sig| != 45 ==> !ok
  {
    HmacEqual(sig, ExpectedSignature(sum))
  }

  /** An independent reading of a signature header: the `sha1=` prefix, then exactly
      twenty bytes in lower-case hexadecimal. */
  function ParseSignature(sig: seq<byte>): (r: Option<Digest>)
  {
    if |sig| < 5 || ByteChars(sig[..5]) != SignaturePrefix then None
    else match HexDecode(ByteChars(sig[5..]))
      case Some(d) => if |d| == 20 then Some(d) else None
      case None => None
  }

  /** A signature verifies against a digest exactly when it parses to that digest; in
      particular upper-case hex, other prefixes and other lengths are refused. */
  lemma VerifyMeansParse(sum: Digest, sig: seq<byte>)
    ensures VerifySignature(sum, sig) <==> ParseSignature(sig) == Some(sum)
  {
    var expected := ExpectedSignature(sum);
    var hex := HexLower(sum);
    if sig == expected {
      assert ByteChars(sig[..5]) == SignaturePrefix;
      assert ByteChars(sig[5..]) == hex;
      HexRoundTrip(sum);
    }
    if ParseSignature(sig) == Some(sum) {
      assert ByteChars(sig[5..]) == HexLower(sum) by {
        HexDecodeSound(ByteChars(sig[5..]), sum);
      }
      forall i | 0 <= i < 45 ensures sig[i] == expected[i] {
        if i < 5 {
          assert ByteChars(sig[..5])[i] == SignaturePrefix[i];
        } else {
          assert ByteChars(sig[5..])[i - 5] == hex[i - 5];
        }
      }
    }
  }

  /** `ServeHTTP`, from the request to the log lines and the dispatch it causes. With a
      secret set, the digest is taken over what was read: the whole body for `ping`,
      which is drained, and what the JSON decoder consumed for `issues`. */
  function ServeHTTP(h: Config, r: Request, mac: Mac): (out: Outcome)
    requires r.decoderRead <= |r.body|
    ensures r.verb != "POST" ==> out == Outcome([], None)
    ensures r.verb == "POST" && r.event == "ping" ==>
      out.dispatched == None &&
      out.logs == ["pong"] +
        (if |h.secret| > 0 && r.signature != ExpectedSignature(mac(h.secret, r.body))
         then ["ping: invalid signature"] else [])
    ensures out.dispatched.Some? <==>
      r.verb == "POST" && r.event == "issues" &&
      (|h.secret| == 0 || r.signature == ExpectedSignature(mac(h.secret, r.body[..r.decoderRead])))
    ensures out.dispatched.Some? ==>
      out.dispatched.value == Dispatch(h.storyRepo, r.decoded) && out.logs == []
    ensures r.verb == "POST" && r.event == "issues" && out.dispatched.None? ==>
      out.logs == ["issues: invalid signature"]
    ensures r.event != "ping" && r.event != "issues" ==> out == Outcome([], None)
  {
    if r.verb != "POST" then Outcome([], None)
    else if r.event == "ping" then
      if |h.secret| > 0 && !VerifySignature(mac(h.secret, r.body), r.signature)
      then Outcome(["pong", "ping: invalid signature"], None)
      else Outcome(["pong"], None)
    else if r.event == "issues" then
      if |h.secret| > 0 && !VerifySignature(mac(h.secret, r.body[..r.decoderRead]), r.signature)
      then Outcome(["issues: invalid signature"], None)
      else Outcome([], Some(Dispatch(h.storyRepo, r.decoded)))
    else Outcome([], None)
  }

  /** Without a secret neither the signature header nor the digest function matters. */
  lemma NoSecretIgnoresSignature(h: Config, r: Request, sig: seq<byte>, mac: Mac, mac': Mac)
    requires |h.secret| == 0 && r.decoderRead <= |r.body|
    ensures ServeHTTP(h, r, mac) == ServeHTTP(h, r.(signature := sig), mac')
  {
  }

  /** The gate dispatches at most once and, when it does, logs nothing itself. */
  lemma DispatchExcludesLogs(h: Config, r: Request, mac: Mac)
    requires r.decoderRead <= |r.body|
    ensures ServeHTTP(h, r, mac).dispatched.Some? ==> ServeHTTP(h, r, mac).logs == []
  {
  }
}

module HandlerExamples {
  import opened Text
  import opened Models
  import opened Handler

  const Secret: seq<byte> := AsciiBytes("this is a secret")
  const Body: seq<byte> := AsciiBytes("this is the body")

  function Ping(signature: seq<byte>, body: seq<byte>, event: IssueEvent): Request {
    Request("POST", "ping", signature, body, event, |body|)
  }

  /** A ping to a handler without a secret logs exactly `pong`. */
  lemma PingWithoutSecret(event: IssueEvent, mac: Mac)
    ensures ServeHTTP(Config("example/test", []), Ping([], [], event), mac).logs == ["pong"]
  {
  }

  /** A ping signed with the digest of its body logs only `pong`. The digest is left
      open: the test's `cd85d074…b1` stands for whatever HMAC-SHA1 gives here. */
  lemma PingWithSignature(sig: seq<byte>, digest: Digest, event: IssueEvent, mac: Mac)
    requires mac(Secret, Body) == digest
    requires ByteChars(sig) == SignaturePrefix + HexLower(digest)
    ensures ServeHTTP(Config("example/test", Secret), Ping(sig, Body, event), mac).logs == ["pong"]
  {
    var expected := ExpectedSignature(digest);
    forall i | 0 <= i < 45 ensures sig[i] == expected[i] {
      assert ByteChars(sig)[i] == (SignaturePrefix + HexLower(digest))[i];
    }
  }

  /** A ping whose signature differs from the digest in its last hex digit, as `…b2`
      differs from `…b1`, logs the rejection after `pong`. */
  lemma PingWithInvalidSignature(sig: seq<byte>, digest: Digest, last: char, event: IssueEvent, mac: Mac)
    requires mac(Secret, Body) == digest
    requires last != HexLower(digest)[39]
    requires ByteChars(sig) == SignaturePrefix + HexLower(digest)[..39] + [last]
    ensures ServeHTTP(Config("example/test", Secret), Ping(sig, Body, event), mac).logs
            == ["pong", "ping: invalid signature"]
  {
    assert ByteChars(sig)[44] != (SignaturePrefix + HexLower(digest))[44];
  }
}

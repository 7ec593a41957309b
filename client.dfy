/**
 * `EmailParserClient`: finds the message that carries a forwarded email
 * (the message itself, or one `.eml` attachment of it), asks the forward
 * classifier for the original metadata, and rebuilds the original message
 * from that metadata. The classifier and the sender-address regular
 * expression are parameters; the parsed message is a `Mime.Message`.
 */
module Client {
  import opened Wrappers
  import opened Text
  import opened Mime

  /** A sender or recipient as the classifier reports it. */
  datatype Mailbox = Mailbox(address: string, name: Option<string>)

  /** What the classifier extracted about the original email (`sender` is Python's `from_`). */
  datatype OriginalMetadata = OriginalMetadata(
    sender: Mailbox, to: seq<Mailbox>, cc: seq<Mailbox>,
    subject: string, date: string, body: string)

  /** The classifier's verdict; `email` is meaningful only when `forwarded` holds. */
  datatype ForwardMetadata = ForwardMetadata(forwarded: bool, email: OriginalMetadata)

  /** The exceptions the client lets escape, one per raising expression. */
  datatype ClientError =
    | UnboundBody          // a multipart message without a qualifying body part
    | MalformedAttachment  // the `.eml` part's payload is not a non-empty list of messages
    | NoRecipient          // `to[0]` or `contacts[0]` on an empty recipient list
    | MissingFrom          // the regular-expression search on a missing From header
    | NoSenderAddress      // no address-shaped text in the From header

  /** `fp.get_forwarded_metadata(body, subject?)`: `None` when no subject is passed. */
  type Classifier = (string, Option<string>) -> ForwardMetadata

  /** The first match of the sender-address regular expression in a From value. */
  type AddressFinder = string -> Option<string>

  // ---------------------------------------------------------------------------
  // _get_body
  // ---------------------------------------------------------------------------

  /** `str(part.get('Content-Disposition'))`: a missing header reads as "None". */
  function DispositionText(p: Message): string
  {
    match Get(p.headers, "Content-Disposition")
    case None => "None"
    case Some(v) => v
  }

  /** The word whose presence in the disposition marks a part as an attachment. */
  const AttachmentWord: string := "attachment"

  /** A plain-text part whose disposition does not mention "attachment". */
  predicate IsBodyPart(p: Message)
  {
    p.contentType == "text/plain" && !Contains(DispositionText(p), AttachmentWord)
  }

  /** `body if isinstance(body, str) else ""`. */
  function PayloadText(pl: Payload): string
  {
    if pl.Str? then pl.text else ""
  }

  /**
   * The body `_get_body` returns: for a multipart message the payload text
   * of the first walked part that is a body part, failing when there is
   * none; otherwise the message's own payload text.
   */
  function Body(msg: Message): Result<string, ClientError>
  {
    if IsMultipart(msg) then
      match Find(Walk(msg), IsBodyPart)
      case None => Failure(UnboundBody)
      case Some(i) => Success(PayloadText(Walk(msg)[i].payload))
    else
      Success(PayloadText(msg.payload))
  }

  /**
   * On a multipart message the body is the text of the first walked body
   * part, and the call fails exactly when no walked part qualifies; a
   * single-part message gives its own payload text.
   */
  lemma BodyIsFirstBodyPart(msg: Message)
    ensures IsMultipart(msg) && Body(msg).Failure? ==>
      forall j :: 0 <= j < |Walk(msg)| ==> !IsBodyPart(Walk(msg)[j])
    ensures IsMultipart(msg) && (forall j :: 0 <= j < |Walk(msg)| ==> !IsBodyPart(Walk(msg)[j])) ==>
      Body(msg).Failure?
    ensures IsMultipart(msg) && Body(msg).Success? ==>
      exists i :: FirstAt(Walk(msg), IsBodyPart, i) && Body(msg).value == PayloadText(Walk(msg)[i].payload)
    ensures !IsMultipart(msg) ==> Body(msg) == Success(PayloadText(msg.payload))
    ensures Body(msg).Failure? ==> Body(msg).error == UnboundBody
  {
    if IsMultipart(msg) {
      var w := Walk(msg);
      var f := Find(w, IsBodyPart);
      FindIsFirst(w, IsBodyPart);
      if f.Some? {
        assert FirstAt(w, IsBodyPart, f.value);
        assert IsBodyPart(w[f.value]);
        assert Body(msg) == Success(PayloadText(w[f.value].payload));
      } else {
        assert Body(msg) == Failure(UnboundBody);
      }
    }
  }

  /** `_get_body`: walks the parts and stops at the first body part. */
  method GetBody(msg: Message) returns (r: Result<string, ClientError>)
    ensures r == Body(msg)
  {
    var body: Option<Payload> := None;
    if IsMultipart(msg) {
      var parts := Walk(msg);
      var i := 0;
      while i < |parts|
        invariant 0 <= i <= |parts|
        invariant body.None? && forall j :: 0 <= j < i ==> !IsBodyPart(parts[j])
      {
        if IsBodyPart(parts[i]) {
          body := Some(parts[i].payload);
          break;
        }
        i := i + 1;
      }
      assert body.Some? ==> FirstAt(parts, IsBodyPart, i) && body.value == parts[i].payload;
      FindIsFirst(parts, IsBodyPart);
    } else {
      body := Some(msg.payload);
    }
    if body.None? {
      return Failure(UnboundBody);
    }
    return Success(PayloadText(body.value));
  }

  /** A text/plain part with no Content-Disposition header always qualifies as the body. */
  lemma MissingDispositionQualifies(p: Message)
    requires p.contentType == "text/plain"
    requires Get(p.headers, "Content-Disposition").None?
    ensures IsBodyPart(p)
  {
    assert DispositionText(p) == "None";
    assert !Contains("None", "attachment");
  }

  /** A disposition that spells "attachment" anywhere excludes the part. */
  lemma AttachmentDispositionExcluded(p: Message, i: nat)
    requires OccursAt(DispositionText(p), "attachment", i)
    ensures !IsBodyPart(p)
  {
    ContainsIffOccurs(DispositionText(p), "attachment");
  }

  // ---------------------------------------------------------------------------
  // _get_eml_attachment
  // ---------------------------------------------------------------------------

  /** A part whose file name ends with ".eml", exactly and case-sensitively. */
  predicate IsEmlPart(p: Message)
  {
    p.filename.Some? && EndsWith(p.filename.value, ".eml")
  }

  /**
   * `_get_eml_attachment`: the first element of the payload of the first
   * walked `.eml` part; `None` when no part has such a name. Indexing a
   * payload that is not a non-empty list of messages raises.
   */
  function EmlAttachment(msg: Message): Result<Option<Message>, ClientError>
  {
    match Find(Walk(msg), IsEmlPart)
    case None => Success(None)
    case Some(i) =>
      var p := Walk(msg)[i];
      if p.payload.Parts? && p.payload.parts != [] then Success(Some(p.payload.parts[0]))
      else Failure(MalformedAttachment)
  }

  /**
   * No attachment exactly when no walked part is an `.eml` part; otherwise
   * the first one decides: its first sub-message, or a failure when its
   * payload is not a non-empty list.
   */
  lemma EmlAttachmentIsFirstEmlPart(msg: Message)
    ensures EmlAttachment(msg) == Success(None) ==>
      forall j :: 0 <= j < |Walk(msg)| ==> !IsEmlPart(Walk(msg)[j])
    ensures (forall j :: 0 <= j < |Walk(msg)| ==> !IsEmlPart(Walk(msg)[j])) ==>
      EmlAttachment(msg) == Success(None)
    ensures EmlAttachment(msg).Success? && EmlAttachment(msg).value.Some? ==>
      exists i :: FirstAt(Walk(msg), IsEmlPart, i) && Walk(msg)[i].payload.Parts? &&
        Walk(msg)[i].payload.parts != [] && EmlAttachment(msg).value.value == Walk(msg)[i].payload.parts[0]
    ensures EmlAttachment(msg).Failure? ==>
      EmlAttachment(msg).error == MalformedAttachment &&
      exists i :: FirstAt(Walk(msg), IsEmlPart, i) &&
        !(Walk(msg)[i].payload.Parts? && Walk(msg)[i].payload.parts != [])
  {
    var w := Walk(msg);
    var f := Find(w, IsEmlPart);
    FindIsFirst(w, IsEmlPart);
    if f.Some? {
      assert FirstAt(w, IsEmlPart, f.value);
      assert IsEmlPart(w[f.value]);
    }
  }

  /** `_get_eml_attachment`: walks the parts and returns at the first `.eml` part. */
  method GetEmlAttachment(msg: Message) returns (r: Result<Option<Message>, ClientError>)
    ensures r == EmlAttachment(msg)
  {
    var parts := Walk(msg);
    FindIsFirst(parts, IsEmlPart);
    for i := 0 to |parts|
      invariant forall j :: 0 <= j < i ==> !IsEmlPart(parts[j])
    {
      var part := parts[i];
      if IsEmlPart(part) {
        assert FirstAt(parts, IsEmlPart, i);
        if part.payload.Parts? && part.payload.parts != [] {
          return Success(Some(part.payload.parts[0]));
        }
        return Failure(MalformedAttachment);
      }
    }
    return Success(None);
  }

  /** The suffix test is case-sensitive: "fwd.EML" is not an attachment to open. */
  lemma UpperCaseEmlIgnored(p: Message)
    requires p.filename == Some("fwd.EML")
    ensures !IsEmlPart(p)
  {
    assert "fwd.EML"[4..] == "EML";
  }

  // ---------------------------------------------------------------------------
  // _get_forwarded_metadata
  // ---------------------------------------------------------------------------

  /**
   * The subject passed to the classifier: present exactly when the raw
   * Subject header exists and is non-empty before stripping, and then
   * stripped.
   */
  function SubjectArgument(msg: Message): (r: Option<string>)
    ensures r.Some? <==> Get(msg.headers, "Subject").Some? && Get(msg.headers, "Subject").value != ""
    ensures r.Some? ==> r.value == Strip(Get(msg.headers, "Subject").value)
  {
    var raw := match Get(msg.headers, "Subject") case None => "" case Some(v) => v;
    if raw != "" then Some(Strip(raw)) else None
  }

  /** A subject of blanks is still passed, as the empty string. */
  lemma BlankSubjectIsPassed(msg: Message)
    requires Get(msg.headers, "Subject") == Some("  ")
    ensures SubjectArgument(msg) == Some("")
  {
    assert StripStart("  ") == "";
  }

  /** `_get_forwarded_metadata`: classify the stripped body and subject. */
  function ForwardedMetadata(msg: Message, classify: Classifier): Result<ForwardMetadata, ClientError>
  {
    var body :- Body(msg);
    Success(classify(Strip(body), SubjectArgument(msg)))
  }

  /**
   * Classification fails exactly when the body cannot be found, that is for
   * a multipart message none of whose walked parts is a body part.
   */
  lemma ForwardedMetadataFailure(msg: Message, classify: Classifier)
    ensures ForwardedMetadata(msg, classify).Failure? ==>
      IsMultipart(msg) && forall j :: 0 <= j < |Walk(msg)| ==> !IsBodyPart(Walk(msg)[j])
    ensures IsMultipart(msg) && (forall j :: 0 <= j < |Walk(msg)| ==> !IsBodyPart(Walk(msg)[j])) ==>
      ForwardedMetadata(msg, classify) == Failure(UnboundBody)
  {
    BodyIsFirstBodyPart(msg);
  }

  /**
   * The classifier sees the body only after stripping: a message whose body
   * is the stripped body of another, with the same subject argument, is
   * classified alike.
   */
  lemma ForwardedMetadataIgnoresSurroundingSpace(m1: Message, m2: Message, classify: Classifier)
    requires Body(m1).Success? && Body(m2) == Success(Strip(Body(m1).value))
    requires SubjectArgument(m1) == SubjectArgument(m2)
    ensures ForwardedMetadata(m1, classify).Success?
    ensures ForwardedMetadata(m1, classify) == ForwardedMetadata(m2, classify)
  {
    var body := Body(m1).value;
    StripIdempotent(body);
    assert Strip(Strip(body)) == Strip(body);
  }

  // ---------------------------------------------------------------------------
  // Resolution: get_original_metadata / get_original_eml
  // ---------------------------------------------------------------------------

  /** The winning metadata and the message that carried it. */
  datatype Resolution = Resolution(metadata: ForwardMetadata, carrier: Message)

  /**
   * Classify the message; when it is not forwarded and it has an `.eml`
   * attachment with at least one header (`if eml:` tests the header
   * count), classify the attachment instead, which becomes the carrier.
   */
  function Resolve(msg: Message, classify: Classifier): (r: Result<Resolution, ClientError>)
  {
    var first :- ForwardedMetadata(msg, classify);
    if first.forwarded then Success(Resolution(first, msg))
    else
      var eml :- EmlAttachment(msg);
      Fallback(msg, first, eml, classify)
  }

  /**
   * The second hop of `Resolve`: an attachment with headers is classified
   * and becomes the carrier; otherwise the first classification stands.
   */
  function Fallback(msg: Message, first: ForwardMetadata, eml: Option<Message>, classify: Classifier): Result<Resolution, ClientError>
  {
    if eml.Some? && eml.value.headers != [] then
      var second :- ForwardedMetadata(eml.value, classify);
      Success(Resolution(second, eml.value))
    else
      Success(Resolution(first, msg))
  }

  /**
   * At most one hop: the result is the classification of its own carrier,
   * which is the message itself or the attachment found in it, and the
   * attachment is used only after the message was classified as not
   * forwarded.
   */
  lemma ResolveAtMostOneHop(msg: Message, classify: Classifier, res: Resolution)
    requires Resolve(msg, classify) == Success(res)
    ensures ForwardedMetadata(res.carrier, classify) == Success(res.metadata)
    ensures res.carrier == msg ||
            (ForwardedMetadata(msg, classify).Success? &&
             !ForwardedMetadata(msg, classify).value.forwarded &&
             EmlAttachment(msg) == Success(Some(res.carrier)) && res.carrier.headers != [])
  {
    var first := ForwardedMetadata(msg, classify);
    assert first.Success?;
    if first.value.forwarded {
      assert res == Resolution(first.value, msg);
    } else {
      var eml := EmlAttachment(msg);
      assert eml.Success?;
      if eml.value.Some? && eml.value.value.headers != [] {
        var second := ForwardedMetadata(eml.value.value, classify);
        assert second.Success?;
        assert res == Resolution(second.value, eml.value.value);
      } else {
        assert res == Resolution(first.value, msg);
      }
    }
  }

  /** A message classified as forwarded is its own carrier; attachments are not searched. */
  lemma ResolveForwarded(msg: Message, classify: Classifier)
    requires ForwardedMetadata(msg, classify).Success?
    requires ForwardedMetadata(msg, classify).value.forwarded
    ensures Resolve(msg, classify) == Success(Resolution(ForwardedMetadata(msg, classify).value, msg))
  {
  }

  /**
   * The fallback: the attachment's classification wins even when it is not
   * forwarded either, and the attachment's own attachments are not searched.
   */
  lemma ResolveFallback(msg: Message, classify: Classifier, eml: Message)
    requires ForwardedMetadata(msg, classify).Success?
    requires !ForwardedMetadata(msg, classify).value.forwarded
    requires EmlAttachment(msg) == Success(Some(eml)) && eml.headers != []
    ensures ForwardedMetadata(eml, classify).Success? ==>
      Resolve(msg, classify) == Success(Resolution(ForwardedMetadata(eml, classify).value, eml))
    ensures ForwardedMetadata(eml, classify).Failure? ==>
      Resolve(msg, classify) == Failure(ForwardedMetadata(eml, classify).error)
  {
  }

  /** `get_original_metadata`: reassigns the metadata at most once. */
  method GetOriginalMetadata(msg: Message, classify: Classifier) returns (r: Result<ForwardMetadata, ClientError>)
    ensures r.Success? <==> Resolve(msg, classify).Success?
    ensures r.Success? ==> r.value == Resolve(msg, classify).value.metadata
    ensures r.Failure? ==> r.error == Resolve(msg, classify).error
  {
    var originalMetadata :- ForwardedMetadata(msg, classify);
    if !originalMetadata.forwarded {
      var eml :- GetEmlAttachment(msg);
      if eml.Some? && eml.value.headers != [] {
        originalMetadata :- ForwardedMetadata(eml.value, classify);
      }
    }
    return Success(originalMetadata);
  }

  /** `get_original_metadata_from_file`: classifies the message alone, with no attachment fallback. */
  function MetadataFromFile(msg: Message, classify: Classifier): Result<ForwardMetadata, ClientError>
  {
    ForwardedMetadata(msg, classify)
  }

  /** The two metadata entry points agree whenever the message itself is classified as forwarded. */
  lemma FromFileAgreesWhenForwarded(msg: Message, classify: Classifier)
    requires ForwardedMetadata(msg, classify).Success?
    requires ForwardedMetadata(msg, classify).value.forwarded
    ensures MetadataFromFile(msg, classify).value == Resolve(msg, classify).value.metadata
  {
    ResolveForwarded(msg, classify);
  }

  /** A classifier that calls a message forwarded exactly when it is given the subject "x". */
  function SubjectClassifier(): Classifier
  {
    (body: string, subject: Option<string>) =>
      ForwardMetadata(subject == Some("x"), OriginalMetadata(Mailbox("", None), [], [], "", "", body))
  }

  /** The message inside the `.eml` wrapper of `FromFileSkipsFallback`: subject "x", empty text body. */
  function SubjectX(): Message
  {
    Message([Header("Subject", "x")], "text/plain", None, Str(""))
  }

  /** The `.eml` wrapper of `FromFileSkipsFallback`: an attachment part holding one message, with no Subject. */
  function Wrapper(): Message
  {
    Message([Header("Content-Type", "message/rfc822"),
             Header("Content-Disposition", "attachment; filename=\"fwd.eml\"")],
            "message/rfc822", Some("fwd.eml"), Parts([SubjectX()]))
  }

  /** The inner message is classified as forwarded. */
  lemma SubjectXForwarded()
    ensures ForwardedMetadata(SubjectX(), SubjectClassifier()).Success?
    ensures ForwardedMetadata(SubjectX(), SubjectClassifier()).value.forwarded
  {
    var inner := SubjectX();
    WalkLeaf(inner);
    assert Get(inner.headers, "Subject") == Some("x");
    assert SubjectArgument(inner) == Some("x") by {
      assert Strip("x") == "x" by {
        assert !IsSpace('x');
      }
    }
  }

  /** The wrapper walks to itself and the inner message. */
  lemma WrapperWalk()
    ensures Walk(Wrapper()) == [Wrapper(), SubjectX()]
  {
    var outer, inner := Wrapper(), SubjectX();
    WalkLeaf(inner);
    assert WalkFrom(outer, 1) == [];
    assert WalkFrom(outer, 0) == [inner];
  }

  /** The wrapper's body is the inner message's empty text, it has no subject, and its attachment is the inner message. */
  lemma WrapperFacts()
    ensures Body(Wrapper()) == Success("")
    ensures SubjectArgument(Wrapper()) == None
    ensures EmlAttachment(Wrapper()) == Success(Some(SubjectX()))
  {
    var outer, inner := Wrapper(), SubjectX();
    WrapperWalk();
    assert Get(inner.headers, "Content-Disposition") == None by {
      assert LowerAscii("Subject")[0] != LowerAscii("Content-Disposition")[0];
    }
    MissingDispositionQualifies(inner);
    assert Get(outer.headers, "Subject") == None by {
      assert LowerAscii("Content-Type")[0] != LowerAscii("Subject")[0];
      assert LowerAscii("Content-Disposition")[0] != LowerAscii("Subject")[0];
    }
    assert !IsBodyPart(outer);
    assert Find(Walk(outer), IsBodyPart) == Some(1);
    assert "fwd.eml"[3..] == ".eml";
    assert IsEmlPart(outer);
  }

  /**
   * The file variant misses a forward that only the attachment reveals: an
   * unforwarded `.eml` wrapper around a message with subject "x".
   */
  lemma FromFileSkipsFallback()
    ensures MetadataFromFile(Wrapper(), SubjectClassifier()).Success?
    ensures !MetadataFromFile(Wrapper(), SubjectClassifier()).value.forwarded
    ensures Resolve(Wrapper(), SubjectClassifier()).Success?
    ensures Resolve(Wrapper(), SubjectClassifier()).value.metadata.forwarded
  {
    var outer, inner, c := Wrapper(), SubjectX(), SubjectClassifier();
    WrapperFacts();
    assert ForwardedMetadata(outer, c) == Success(c("", None));
    assert !c("", None).forwarded;
    SubjectXForwarded();
    assert inner.headers != [];
    ResolveFallback(outer, c, inner);
  }

  // ---------------------------------------------------------------------------
  // _format_addresses
  // ---------------------------------------------------------------------------

  /** The addresses of the mailboxes, in list order. */
  function Addresses(contacts: seq<Mailbox>): seq<string>
  {
    seq(|contacts|, i requires 0 <= i < |contacts| => contacts[i].address)
  }

  /** The addresses separated by ", ", built from the left as the loop builds it. */
  function Join(xs: seq<string>): string
  {
    if xs == [] then ""
    else if |xs| == 1 then xs[0]
    else Join(xs[..|xs| - 1]) + ", " + xs[|xs| - 1]
  }

  /** An independent reading of the same join, built from the right. */
  function JoinRight(xs: seq<string>): string
  {
    if xs == [] then ""
    else if |xs| == 1 then xs[0]
    else xs[0] + ", " + JoinRight(xs[1..])
  }

  /** Both readings of the join agree. */
  lemma {:induction false} JoinAgrees(xs: seq<string>)
    ensures Join(xs) == JoinRight(xs)
    decreases |xs|
  {
    if |xs| > 2 {
      var n := |xs|;
      JoinAgrees(xs[..n - 1]);
      JoinAgrees(xs[1..]);
      JoinAgrees(xs[1..][..n - 2]);
      assert xs[..n - 1][1..] == xs[1..][..n - 2];
      assert xs[..n - 1][0] == xs[0];
      assert xs[1..][n - 2] == xs[n - 1];
      calc {
        Join(xs);
        Join(xs[..n - 1]) + ", " + xs[n - 1];
        (xs[0] + ", " + JoinRight(xs[1..][..n - 2])) + ", " + xs[n - 1];
        { StringAssoc(xs[0] + ", ", JoinRight(xs[1..][..n - 2]) , ", " + xs[n - 1]); }
        xs[0] + ", " + (Join(xs[1..][..n - 2]) + ", " + xs[n - 1]);
        xs[0] + ", " + JoinRight(xs[1..]);
      }
    } else if |xs| == 2 {
      assert xs[..1] == [xs[0]];
    }
  }

  predicate IsComma(c: char)
  {
    c == ','
  }

  /** Cut a joined address list back into its items at each ", " (the comma and one character after it). */
  function Unjoin(s: string): seq<string>
    decreases |s|
  {
    match Find(s, IsComma)
    case None => [s]
    case Some(i) => [s[..i]] + Unjoin(s[if i + 2 <= |s| then i + 2 else |s|..])
  }

  /** Joining is lossless for addresses without commas: cutting the joined text gives them back. */
  lemma {:induction false} UnjoinJoin(xs: seq<string>)
    requires xs != []
    requires forall i, k :: 0 <= i < |xs| && 0 <= k < |xs[i]| ==> !IsComma(xs[i][k])
    ensures Unjoin(Join(xs)) == xs
  {
    JoinAgrees(xs);
    UnjoinJoinRight(xs);
  }

  lemma {:induction false} UnjoinJoinRight(xs: seq<string>)
    requires xs != []
    requires forall i, k :: 0 <= i < |xs| && 0 <= k < |xs[i]| ==> !IsComma(xs[i][k])
    ensures Unjoin(JoinRight(xs)) == xs
    decreases |xs|
  {
    var x := xs[0];
    assert forall k :: 0 <= k < |x| ==> !IsComma(x[k]);
    if |xs| == 1 {
      FindIsFirst(x, IsComma);
    } else {
      UnjoinStep(x, JoinRight(xs[1..]));
      UnjoinJoinRight(xs[1..]);
      assert [x] + xs[1..] == xs;
    }
  }

  /** Cutting `x + ", " + rest` for a comma-free `x` gives `x`, then the cuts of `rest`. */
  lemma UnjoinStep(x: string, rest: string)
    requires forall k :: 0 <= k < |x| ==> !IsComma(x[k])
    ensures Unjoin(x + ", " + rest) == [x] + Unjoin(rest)
  {
    var s := x + ", " + rest;
    FirstCommaAfter(x, rest);
    assert s[..|x|] == x;
    assert s[|x| + 2..] == rest;
  }

  /** The first comma of `x + ", " + rest`, for a comma-free `x`, is the one after `x`. */
  lemma FirstCommaAfter(x: string, rest: string)
    requires forall k :: 0 <= k < |x| ==> !IsComma(x[k])
    ensures Find(x + ", " + rest, IsComma) == Some(|x|)
  {
    var s := x + ", " + rest;
    assert IsComma(s[|x|]);
    forall k | 0 <= k < |x| ensures !IsComma(s[k]) {
      assert s[k] == x[k];
    }
    FindIsFirst(s, IsComma);
    var f := Find(s, IsComma);
    assert f.Some?;
    assert FirstAt(s, IsComma, f.value);
    assert IsComma(s[f.value]);
  }

  /** The address list `_format_addresses` writes: fails on an empty list (`contacts[0]`). */
  function FormattedAddresses(contacts: seq<Mailbox>): Result<string, ClientError>
  {
    if contacts == [] then Failure(NoRecipient) else Success(Join(Addresses(contacts)))
  }

  /** `_format_addresses`: the first address, then ", " and the next one, for each further contact. */
  method FormatAddresses(contacts: seq<Mailbox>) returns (r: Result<string, ClientError>)
    ensures r == FormattedAddresses(contacts)
  {
    if contacts == [] {
      return Failure(NoRecipient);
    }
    var result := contacts[0].address;
    assert Addresses(contacts[..1]) == [contacts[0].address];
    for index := 1 to |contacts|
      invariant result == Join(Addresses(contacts[..index]))
    {
      assert Addresses(contacts[..index + 1])[..index] == Addresses(contacts[..index]);
      result := result + ", " + contacts[index].address;
    }
    assert contacts[..|contacts|] == contacts;
    return Success(result);
  }

  // ---------------------------------------------------------------------------
  // The rebuilt message: _set_headers and _build_original_email
  // ---------------------------------------------------------------------------

  /**
   * A part attached to the rebuilt multipart message: the new text/plain
   * part (UTF-8, quoted-printable) holding the original body, or one of the
   * carrier's own parts, unchanged.
   */
  datatype Attached = BodyText(text: string) | Kept(part: Message)

  /** The state of a rebuilt message: its kind, header list, attached parts and plain-text content. */
  datatype Built = Built(multipart: bool, headers: seq<Header>, parts: seq<Attached>, content: Option<string>)

  /** The message `_build_original_email` fills in: headers and parts only ever grow. */
  class OutMessage {
    var multipart: bool
    var headers: seq<Header>
    var parts: seq<Attached>
    var content: Option<string>

    /** `MIMEMultipart()` when `multipart`, `EmailMessage()` otherwise: no headers, no parts yet. */
    constructor (multipart: bool)
      ensures this.multipart == multipart && headers == [] && parts == [] && content == None
    {
      this.multipart := multipart;
      headers := [];
      parts := [];
      content := None;
    }

    function Snapshot(): Built
      reads this
    {
      Built(multipart, headers, parts, content)
    }

    /** `message[name] = value` appends a header line; an existing one of that name stays. */
    method SetHeader(name: string, value: string)
      modifies this
      ensures headers == old(headers) + [Header(name, value)]
      ensures multipart == old(multipart) && parts == old(parts) && content == old(content)
    {
      headers := headers + [Header(name, value)];
    }

    /** `attach(part)` appends a part. */
    method Attach(part: Attached)
      modifies this
      ensures parts == old(parts) + [part]
      ensures multipart == old(multipart) && headers == old(headers) && content == old(content)
    {
      parts := parts + [part];
    }

    /** `set_content(text)` on a single-part message. */
    method SetContent(text: string)
      modifies this
      ensures content == Some(text)
      ensures multipart == old(multipart) && headers == old(headers) && parts == old(parts)
    {
      content := Some(text);
    }
  }

  /** The CC line `_set_headers` (and the multipart branch) writes when cc is non-empty. */
  function CcHeaders(m: OriginalMetadata): seq<Header>
  {
    if m.cc == [] then [] else [Header("CC", Join(Addresses(m.cc)))]
  }

  /** The headers `_set_headers` appends, in order; it raises at To when there is no recipient. */
  function HeaderList(m: OriginalMetadata): Result<seq<Header>, ClientError>
  {
    var to :- FormattedAddresses(m.to);
    Success([Header("Date", m.date), Header("From", m.sender.address),
             Header("Subject", m.subject), Header("To", to)] + CcHeaders(m))
  }

  /** `_set_headers`: Date, From (address only), Subject, To and, with a non-empty cc, CC. */
  method SetHeaders(m: OriginalMetadata, result: OutMessage) returns (r: Result<(), ClientError>)
    modifies result
    ensures result.multipart == old(result.multipart) && result.parts == old(result.parts)
    ensures result.content == old(result.content)
    ensures r.Success? <==> HeaderList(m).Success?
    ensures r.Success? ==> result.headers == old(result.headers) + HeaderList(m).value
    ensures r.Failure? ==>
      (r.error == NoRecipient &&
       result.headers == old(result.headers) +
         [Header("Date", m.date), Header("From", m.sender.address), Header("Subject", m.subject)])
  {
    result.SetHeader("Date", m.date);
    result.SetHeader("From", m.sender.address);
    result.SetHeader("Subject", m.subject);
    var to := FormatAddresses(m.to);
    if to.Failure? {
      return Failure(to.error);
    }
    result.SetHeader("To", to.value);
    if m.cc != [] {
      var cc := FormatAddresses(m.cc);
      result.SetHeader("CC", cc.value);
    }
    return Success(());
  }

  /** The carrier's top-level parts that are kept: all but the body parts, in order. */
  function KeptParts(ps: seq<Message>): seq<Attached>
  {
    if ps == [] then []
    else KeptParts(ps[..|ps| - 1]) + (if IsBodyPart(ps[|ps| - 1]) then [] else [Kept(ps[|ps| - 1])])
  }

  /**
   * The rebuilt message. Single-part carrier: the headers and the body as
   * content. Multipart carrier: the headers, CC once more, then the new body
   * part followed by the kept parts.
   */
  function Reconstruct(m: OriginalMetadata, carrier: Message): Result<Built, ClientError>
  {
    var hs :- HeaderList(m);
    if !IsMultipart(carrier) then Success(Built(false, hs, [], Some(m.body)))
    else Success(Built(true, hs + CcHeaders(m), [BodyText(m.body)] + KeptParts(carrier.payload.parts), None))
  }

  /** `_build_original_email`: headers through `SetHeaders`, then content or parts. */
  method BuildOriginalEmail(m: OriginalMetadata, message: Message) returns (r: Result<OutMessage, ClientError>)
    ensures r.Success? <==> Reconstruct(m, message).Success?
    ensures r.Success? ==> fresh(r.value) && r.value.Snapshot() == Reconstruct(m, message).value
    ensures r.Failure? ==> r.error == NoRecipient
  {
    if !IsMultipart(message) {
      var resultMessage := new OutMessage(false);
      var written := SetHeaders(m, resultMessage);
      if written.Failure? {
        return Failure(written.error);
      }
      resultMessage.SetContent(m.body);
      return Success(resultMessage);
    }
    var result := new OutMessage(true);
    var written := SetHeaders(m, result);
    if written.Failure? {
      return Failure(written.error);
    }
    if m.cc != [] {
      var cc := FormatAddresses(m.cc);
      result.SetHeader("CC", cc.value);
    }
    ghost var headers := result.headers;
    assert headers == HeaderList(m).value + CcHeaders(m);
    result.Attach(BodyText(m.body));
    var payload := message.payload;
    if payload.Parts? {
      var parts := payload.parts;
      for i := 0 to |parts|
        invariant result.multipart && result.content == None && result.headers == headers
        invariant result.parts == [BodyText(m.body)] + KeptParts(parts[..i])
      {
        var part := parts[i];
        assert parts[..i + 1][..i] == parts[..i];
        if IsBodyPart(part) {
          continue;
        }
        result.Attach(Kept(part));
      }
      assert parts[..|parts|] == parts;
    }
    return Success(result);
  }

  /** Rebuilding fails exactly when the metadata has no recipient. */
  lemma ReconstructNeedsRecipient(m: OriginalMetadata, carrier: Message)
    ensures Reconstruct(m, carrier).Success? <==> m.to != []
    ensures Reconstruct(m, carrier).Failure? ==> Reconstruct(m, carrier).error == NoRecipient
  {
  }

  /**
   * The header lines in order: Date, the sender's address, Subject, the
   * joined To list, then the joined CC list once for a single-part carrier
   * and twice for a multipart one, and no CC line for an empty cc.
   */
  lemma HeadersInOrder(m: OriginalMetadata, carrier: Message)
    requires m.to != []
    ensures Reconstruct(m, carrier).Success?
    ensures Reconstruct(m, carrier).value.headers ==
      [Header("Date", m.date), Header("From", m.sender.address),
       Header("Subject", m.subject), Header("To", Join(Addresses(m.to)))] +
      (if m.cc == [] then []
       else if IsMultipart(carrier) then [Header("CC", Join(Addresses(m.cc))), Header("CC", Join(Addresses(m.cc)))]
       else [Header("CC", Join(Addresses(m.cc)))])
  {
  }

  /** How many header lines carry exactly this name. */
  function CountNamed(hs: seq<Header>, name: string): nat
  {
    if hs == [] then 0
    else CountNamed(hs[..|hs| - 1], name) + (if hs[|hs| - 1].name == name then 1 else 0)
  }

  lemma {:induction false} CountNamedAppend(a: seq<Header>, b: seq<Header>, name: string)
    ensures CountNamed(a + b, name) == CountNamed(a, name) + CountNamed(b, name)
    decreases |b|
  {
    if b != [] {
      assert (a + b)[..|a + b| - 1] == a + b[..|b| - 1];
      CountNamedAppend(a, b[..|b| - 1], name);
    } else {
      assert a + b == a;
    }
  }

  /** CC is written twice into a multipart rebuild, once into a single-part one, never without cc. */
  lemma CcCount(m: OriginalMetadata, carrier: Message)
    requires m.to != []
    ensures CountNamed(Reconstruct(m, carrier).value.headers, "CC") ==
      if m.cc == [] then 0 else if IsMultipart(carrier) then 2 else 1
  {
    HeadersInOrder(m, carrier);
    var d, f, s, to := Header("Date", m.date), Header("From", m.sender.address),
                       Header("Subject", m.subject), Header("To", Join(Addresses(m.to)));
    var fixed := [d, f, s, to];
    assert CountNamed(fixed, "CC") == 0 by {
      assert fixed[..3] == [d, f, s] && [d, f, s][..2] == [d, f] && [d, f][..1] == [d] && [d][..0] == [];
      assert CountNamed([d], "CC") == 0;
      assert CountNamed([d, f], "CC") == 0;
      assert CountNamed([d, f, s], "CC") == 0;
    }
    var cc := Header("CC", Join(Addresses(m.cc)));
    assert CountNamed([cc], "CC") == 1 by {
      assert [cc][..0] == [];
    }
    assert CountNamed([cc, cc], "CC") == 2 by {
      assert [cc, cc][..1] == [cc];
    }
    var tail := Reconstruct(m, carrier).value.headers[4..];
    assert Reconstruct(m, carrier).value.headers == fixed + tail;
    CountNamedAppend(fixed, tail, "CC");
  }

  /** The filter keeps order: filtering a concatenation filters each half. */
  lemma {:induction false} KeptPartsAppend(a: seq<Message>, b: seq<Message>)
    ensures KeptParts(a + b) == KeptParts(a) + KeptParts(b)
    decreases |b|
  {
    if b == [] {
      assert a + b == a;
    } else {
      assert (a + b)[..|a + b| - 1] == a + b[..|b| - 1];
      KeptPartsAppend(a, b[..|b| - 1]);
    }
  }

  /** Every kept entry is an unchanged top-level part that is not a body part, and every such part is kept. */
  lemma {:induction false} KeptPartsMembers(ps: seq<Message>)
    ensures forall a :: a in KeptParts(ps) ==> a.Kept? && a.part in ps && !IsBodyPart(a.part)
    ensures forall x :: x in ps && !IsBodyPart(x) ==> Kept(x) in KeptParts(ps)
  {
    if ps != [] {
      var init := ps[..|ps| - 1];
      KeptPartsMembers(init);
      forall x | x in ps && !IsBodyPart(x) ensures Kept(x) in KeptParts(ps) {
        if x != ps[|ps| - 1] {
          var i :| 0 <= i < |ps| && ps[i] == x;
          assert init[i] == x;
        }
      }
    }
  }

  /** The multipart rebuild attaches the new body part first, then the kept top-level parts. */
  lemma MultipartParts(m: OriginalMetadata, carrier: Message)
    requires m.to != [] && IsMultipart(carrier)
    ensures Reconstruct(m, carrier).value.parts[0] == BodyText(m.body)
    ensures Reconstruct(m, carrier).value.parts[1..] == KeptParts(carrier.payload.parts)
    ensures Reconstruct(m, carrier).value.content == None
  {
    assert ([BodyText(m.body)] + KeptParts(carrier.payload.parts))[1..] == KeptParts(carrier.payload.parts);
  }

  /** Two body parts at the top level are both dropped, not only the first. */
  lemma EveryBodyPartDropped(a: Message, b: Message, c: Message)
    requires IsBodyPart(a) && IsBodyPart(c) && !IsBodyPart(b)
    ensures KeptParts([a, b, c]) == [Kept(b)]
  {
    assert [a, b, c][..2] == [a, b] && [a, b][..1] == [a] && [a][..0] == [];
    assert KeptParts([a]) == [];
    assert KeptParts([a, b]) == [Kept(b)];
  }

  /** A single-part rebuild keeps the metadata's fields verbatim and the body as its content. */
  lemma SinglePartFidelity(m: OriginalMetadata, carrier: Message)
    requires m.to != [] && !IsMultipart(carrier)
    ensures Reconstruct(m, carrier).value.content == Some(m.body)
    ensures Reconstruct(m, carrier).value.parts == []
    ensures !Reconstruct(m, carrier).value.multipart
  {
  }

  // ---------------------------------------------------------------------------
  // _get_dict and get_original_eml
  // ---------------------------------------------------------------------------

  /** The `eml` entry: the rebuilt message, or the carrier unchanged (serialisation is not modelled). */
  datatype Eml = Rebuilt(built: Built) | Unchanged(message: Message)

  /** The dict `{"Send-To": ..., "eml": ...}`. */
  datatype Output = Output(sendTo: string, eml: Eml)

  /**
   * `_get_dict`: for a forward, the first recipient and the rebuilt message;
   * otherwise the first address in From and the message as it is.
   */
  function Dict(message: Message, email: OriginalMetadata, forwarded: bool, findAddress: AddressFinder): Result<Output, ClientError>
  {
    if forwarded then
      if email.to == [] then Failure(NoRecipient)
      else
        var built :- Reconstruct(email, message);
        Success(Output(email.to[0].address, Rebuilt(built)))
    else
      match Get(message.headers, "From")
      case None => Failure(MissingFrom)
      case Some(sender) =>
        match findAddress(sender)
        case None => Failure(NoSenderAddress)
        case Some(address) => Success(Output(address, Unchanged(message)))
  }

  /** `_get_dict`. */
  method GetDict(message: Message, email: OriginalMetadata, forwarded: bool, findAddress: AddressFinder)
    returns (r: Result<Output, ClientError>)
    ensures r == Dict(message, email, forwarded, findAddress)
  {
    if forwarded {
      if email.to == [] {
        return Failure(NoRecipient);
      }
      var sendTo := email.to[0].address;
      var built := BuildOriginalEmail(email, message);
      assert built.Success? by {
        ReconstructNeedsRecipient(email, message);
      }
      return Success(Output(sendTo, Rebuilt(built.value.Snapshot())));
    }
    var sender := Get(message.headers, "From");
    if sender.None? {
      return Failure(MissingFrom);
    }
    var found := findAddress(sender.value);
    if found.None? {
      return Failure(NoSenderAddress);
    }
    return Success(Output(found.value, Unchanged(message)));
  }

  /**
   * A forward always gets a destination once it has a recipient: Send-To is
   * the first recipient and the rebuild cannot fail after that check.
   */
  lemma ForwardedDict(message: Message, email: OriginalMetadata, findAddress: AddressFinder)
    ensures Dict(message, email, true, findAddress).Success? <==> email.to != []
    ensures email.to != [] ==>
      Dict(message, email, true, findAddress) ==
        Success(Output(email.to[0].address, Rebuilt(Reconstruct(email, message).value)))
  {
  }

  /** Without a forward the message passes through unchanged, addressed to the sender found in From. */
  lemma UnforwardedDict(message: Message, email: OriginalMetadata, findAddress: AddressFinder)
    ensures Dict(message, email, false, findAddress).Success? <==>
      Get(message.headers, "From").Some? && findAddress(Get(message.headers, "From").value).Some?
    ensures Dict(message, email, false, findAddress).Success? ==>
      Dict(message, email, false, findAddress).value ==
        Output(findAddress(Get(message.headers, "From").value).value, Unchanged(message))
  {
  }

  /** `get_original_eml`: resolve the carrier, then build the dict from it. */
  function OriginalEml(msg: Message, classify: Classifier, findAddress: AddressFinder): Result<Output, ClientError>
  {
    var res :- Resolve(msg, classify);
    Dict(res.carrier, res.metadata.email, res.metadata.forwarded, findAddress)
  }

  /** `get_original_eml`: reassigns the message and its metadata when the attachment is used. */
  method GetOriginalEml(email: Message, classify: Classifier, findAddress: AddressFinder)
    returns (r: Result<Output, ClientError>)
    ensures r == OriginalEml(email, classify, findAddress)
  {
    var msg := email;
    var originalMetadata :- ForwardedMetadata(msg, classify);
    if !originalMetadata.forwarded {
      var eml :- GetEmlAttachment(msg);
      if eml.Some? && eml.value.headers != [] {
        originalMetadata :- ForwardedMetadata(eml.value, classify);
        msg := eml.value;
      }
    }
    r := GetDict(msg, originalMetadata.email, originalMetadata.forwarded, findAddress);
  }
}

/**
 * The parsed message as the client sees it through Python's
 * `email.message.Message`: a list of header lines, a content type, an
 * optional file name and a payload that is a string, a list of sub-messages
 * or nothing. `walk()` and `get(name)` are modelled; parsing, header
 * decoding and serialisation are not.
 */
module Mime {
  import opened Wrappers
  import opened Text

  /** One stored header line, in the order the message holds them. */
  datatype Header = Header(name: string, value: string)

  /**
   * What `get_payload()` returns: a string for a leaf part, a list of
   * messages for a multipart part (or the single message of a
   * `message/rfc822` part), `None` when no payload was set.
   */
  datatype Payload = Str(text: string) | Parts(parts: seq<Message>) | Absent

  /**
   * A message or MIME part. `contentType` is what `get_content_type()`
   * derives from the Content-Type header and `filename` what
   * `get_filename()` derives from the Content-Disposition / Content-Type
   * parameters; both derivations belong to the email library.
   */
  datatype Message = Message(headers: seq<Header>, contentType: string,
                             filename: Option<string>, payload: Payload)

  /** `is_multipart()`: the payload is a list. */
  predicate IsMultipart(m: Message)
  {
    m.payload.Parts?
  }

  /** `i` is the first index of `s` whose element satisfies `p`. */
  predicate FirstAt<T>(s: seq<T>, p: T -> bool, i: int)
  {
    0 <= i < |s| && p(s[i]) && forall j :: 0 <= j < i ==> !p(s[j])
  }

  /** A left-to-right search that stops at the first element satisfying `p`. */
  function Find<T>(s: seq<T>, p: T -> bool): (r: Option<nat>)
    ensures r.Some? ==> r.value < |s| && p(s[r.value])
  {
    if s == [] then None
    else if p(s[0]) then Some(0)
    else match Find(s[1..], p)
      case None => None
      case Some(k) => Some(k + 1)
  }

  /** `Find` gives the first index satisfying `p`, and nothing exactly when no element does. */
  lemma {:induction false} FindIsFirst<T>(s: seq<T>, p: T -> bool)
    ensures Find(s, p).Some? ==> FirstAt(s, p, Find(s, p).value)
    ensures Find(s, p).None? ==> forall j :: 0 <= j < |s| ==> !p(s[j])
    ensures (forall j :: 0 <= j < |s| ==> !p(s[j])) ==> Find(s, p).None?
    decreases |s|
  {
    if s != [] && !p(s[0]) {
      var t := s[1..];
      FindIsFirst(t, p);
      forall j | 0 < j < |s| ensures s[j] == t[j - 1] {
      }
    }
  }

  /** Header names compare after ASCII lower-casing, as `Message.get` does. */
  predicate NameIs(h: Header, name: string)
  {
    LowerAscii(h.name) == LowerAscii(name)
  }

  /** `Message.get(name)`: the value of the first header with that name, else `None`. */
  function Get(headers: seq<Header>, name: string): Option<string>
  {
    if headers == [] then None
    else if NameIs(headers[0], name) then Some(headers[0].value)
    else Get(headers[1..], name)
  }

  /** `Get` finds a value exactly when some header has the name, and then it is the first one's. */
  lemma {:induction false} GetIsFirstMatch(headers: seq<Header>, name: string)
    ensures Get(headers, name).None? <==> forall j :: 0 <= j < |headers| ==> !NameIs(headers[j], name)
    ensures Get(headers, name).Some? ==>
      exists i :: FirstNamed(headers, name, i) && Get(headers, name).value == headers[i].value
  {
    if headers != [] {
      if NameIs(headers[0], name) {
        assert FirstNamed(headers, name, 0);
      } else {
        GetIsFirstMatch(headers[1..], name);
        if Get(headers[1..], name).Some? {
          var i :| FirstNamed(headers[1..], name, i) && Get(headers[1..], name).value == headers[1..][i].value;
          assert FirstNamed(headers, name, i + 1);
        } else {
          forall j | 0 <= j < |headers| ensures !NameIs(headers[j], name) {
            if j > 0 { assert headers[j] == headers[1..][j - 1]; }
          }
        }
      }
    }
  }

  /** `i` is the first header of the list named `name`. */
  predicate FirstNamed(headers: seq<Header>, name: string, i: int)
  {
    0 <= i < |headers| && NameIs(headers[i], name) &&
    forall j :: 0 <= j < i ==> !NameIs(headers[j], name)
  }

  /**
   * `walk()`: the message itself, then the walk of each sub-message in
   * order (depth-first pre-order).
   */
  function Walk(m: Message): (w: seq<Message>)
    ensures w != [] && w[0] == m
    decreases m
  {
    [m] + if m.payload.Parts? then WalkFrom(m, 0) else []
  }

  /** The walks of the sub-messages of `m` from index `i` on, one after the other. */
  function WalkFrom(m: Message, i: nat): seq<Message>
    requires m.payload.Parts? && i <= |m.payload.parts|
    decreases m, |m.payload.parts| - i
  {
    if i == |m.payload.parts| then []
    else Walk(m.payload.parts[i]) + WalkFrom(m, i + 1)
  }

  /** A leaf part walks to itself only. */
  lemma WalkLeaf(m: Message)
    requires !m.payload.Parts?
    ensures Walk(m) == [m]
  {
  }

  /** Every message visited below sub-message `k` is visited by the walk of `m`. */
  lemma {:induction false} WalkFromContains(m: Message, i: nat, k: nat, x: Message)
    requires m.payload.Parts? && i <= k < |m.payload.parts|
    requires x in Walk(m.payload.parts[k])
    ensures x in WalkFrom(m, i)
    decreases k - i
  {
    if i < k {
      WalkFromContains(m, i + 1, k, x);
    }
  }

  /** The walk reaches every part at any depth: what a sub-message visits, its parent visits. */
  lemma WalkReachesChildren(m: Message, k: nat, x: Message)
    requires m.payload.Parts? && k < |m.payload.parts|
    requires x in Walk(m.payload.parts[k])
    ensures x in Walk(m)
  {
    WalkFromContains(m, 0, k, x);
  }
}

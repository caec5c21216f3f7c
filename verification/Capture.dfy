/** Bounded capture of a child's output stream: what is kept, when the limit is reported, and
    secret detection across arbitrary chunk boundaries. */
module Capture {
  import opened Seqs

  type Bytes = seq<int>

  predicate OccursAt(secret: Bytes, text: Bytes, i: nat) {
    i + |secret| <= |text| && text[i..i + |secret|] == secret
  }

  predicate Occurs(secret: Bytes, text: Bytes) { exists i: nat :: i <= |text| && OccursAt(secret, text, i) }

  predicate AnyOccurs(secrets: seq<Bytes>, text: Bytes) {
    exists k :: 0 <= k < |secrets| && Occurs(secrets[k], text)
  }

  function Longest(secrets: seq<Bytes>): (n: nat)
    ensures forall k :: 0 <= k < |secrets| ==> |secrets[k]| <= n
  {
    if secrets == [] then 0
    else
      var rest := Longest(secrets[1..]);
      assert forall k :: 1 <= k < |secrets| ==> secrets[k] == secrets[1..][k - 1];
      if |secrets[0]| > rest then |secrets[0]| else rest
  }

  /** And some secret is as long as that. */
  lemma {:induction false} LongestIsReached(secrets: seq<Bytes>)
    requires secrets != []
    ensures exists k :: 0 <= k < |secrets| && |secrets[k]| == Longest(secrets)
    decreases |secrets|
  {
    if |secrets[0]| < Longest(secrets) {
      LongestIsReached(secrets[1..]);
      var k :| 0 <= k < |secrets[1..]| && |secrets[1..][k]| == Longest(secrets[1..]);
      assert secrets[k + 1] == secrets[1..][k];
    }
  }

  function Last(text: Bytes, n: nat): Bytes { if |text| <= n then text else text[|text| - n..] }

  function Concat(chunks: seq<Bytes>): Bytes {
    if chunks == [] then [] else Concat(chunks[..|chunks| - 1]) + chunks[|chunks| - 1]
  }

  // ----- What the tail must keep -------------------------------------------------------------------

  lemma OccursInSuffix(secret: Bytes, text: Bytes, cut: nat, i: nat)
    requires cut <= i && cut <= |text|
    ensures OccursAt(secret, text, i) <==> OccursAt(secret, text[cut..], i - cut)
  {
    if i + |secret| <= |text| { assert text[cut..][i - cut..i - cut + |secret|] == text[i..i + |secret|]; }
  }

  lemma OccursInGrown(secret: Bytes, text: Bytes, chunk: Bytes, i: nat)
    requires i + |secret| <= |text|
    ensures OccursAt(secret, text + chunk, i) <==> OccursAt(secret, text, i)
  {
    assert (text + chunk)[i..i + |secret|] == text[i..i + |secret|];
  }

  /** An occurrence in a text that grew lies in the old text, or in its last `n` bytes and the
      growth, when the secret is at most one byte longer than that tail. */
  lemma OccursAcross(secret: Bytes, text: Bytes, chunk: Bytes, n: nat)
    requires secret != [] && |secret| <= n + 1
    ensures Occurs(secret, text + chunk) <==> Occurs(secret, text) || Occurs(secret, Last(text, n) + chunk)
  {
    var whole, tail := text + chunk, Last(text, n);
    var cut := |text| - |tail|;
    assert whole[cut..] == tail + chunk;
    forall i: nat | OccursAt(secret, whole, i) ensures Occurs(secret, text) || Occurs(secret, tail + chunk) {
      if i + |secret| <= |text| {
        OccursInGrown(secret, text, chunk, i);
      } else {
        OccursInSuffix(secret, whole, cut, i);
      }
    }
    forall i: nat | OccursAt(secret, text, i) ensures Occurs(secret, whole) {
      OccursInGrown(secret, text, chunk, i);
    }
    forall i: nat | OccursAt(secret, tail + chunk, i) ensures Occurs(secret, whole) {
      OccursInSuffix(secret, whole, cut, cut + i);
    }
  }

  lemma AnyOccursAcross(secrets: seq<Bytes>, text: Bytes, chunk: Bytes, n: nat)
    requires forall k :: 0 <= k < |secrets| ==> secrets[k] != [] && |secrets[k]| <= n + 1
    ensures AnyOccurs(secrets, text + chunk) <==>
      AnyOccurs(secrets, text) || AnyOccurs(secrets, Last(text, n) + chunk)
  {
    forall k | 0 <= k < |secrets|
      ensures Occurs(secrets[k], text + chunk) <==>
        Occurs(secrets[k], text) || Occurs(secrets[k], Last(text, n) + chunk)
    {
      OccursAcross(secrets[k], text, chunk, n);
    }
  }

  lemma LastOfLast(text: Bytes, chunk: Bytes, n: nat)
    ensures Last(Last(text, n) + chunk, n) == Last(text + chunk, n)
  {
  }

  function First(text: Bytes, n: nat): Bytes { if |text| <= n then text else text[..n] }

  lemma FirstGrows(text: Bytes, chunk: Bytes, n: nat)
    ensures First(text + chunk, n) == First(text, n) + First(chunk, n - |First(text, n)|)
  {
  }

  /** The fields of a capture that saw `seen`. */
  datatype Kept = Kept(data: Bytes, total: nat, exceeded: bool, secretDetected: bool, secretTail: Bytes)

  /** What a capture must have kept of a whole stream, of which `hit` says whether it holds a secret. */
  function KeptOf(limit: nat, reserve: nat, seen: Bytes, hit: bool): Kept {
    Kept(First(seen, limit + reserve), |seen|, |seen| > limit, hit, if reserve > 1 then Last(seen, reserve - 1) else [])
  }

  /** What the next chunk makes of it, when the scan of tail and chunk says `hit`. */
  function KeptNext(limit: nat, reserve: nat, k: Kept, chunk: Bytes, hit: bool): Kept {
    var keep := limit + reserve - |k.data|;
    Kept(if keep > 0 then k.data + First(chunk, keep) else k.data,
         k.total + |chunk|,
         k.exceeded || k.total + |chunk| > limit,
         k.secretDetected || hit,
         if reserve > 1 then Last(k.secretTail + chunk, reserve - 1) else k.secretTail)
  }

  lemma DataGrows(seen: Bytes, chunk: Bytes, n: nat)
    ensures First(seen + chunk, n)
         == if |First(seen, n)| < n then First(seen, n) + First(chunk, n - |First(seen, n)|) else First(seen, n)
  {
    FirstGrows(seen, chunk, n);
    assert First(chunk, 0) == [];
  }

  /** The tail is all that the scan of the next chunk needs. */
  lemma DetectionGrows(secrets: seq<Bytes>, limit: nat, seen: Bytes, hit: bool, chunk: Bytes)
    requires forall k :: 0 <= k < |secrets| ==> secrets[k] != []
    ensures AnyOccurs(secrets, seen + chunk) <==>
      AnyOccurs(secrets, seen) || AnyOccurs(secrets, KeptOf(limit, Longest(secrets), seen, hit).secretTail + chunk)
  {
    var n := if Longest(secrets) > 1 then Longest(secrets) - 1 else 0;
    assert Last(seen, 0) == [];
    AnyOccursAcross(secrets, seen, chunk, n);
  }

  /** Adding a chunk keeps what the longer stream determines. */
  lemma KeptGrows(limit: nat, reserve: nat, seen: Bytes, chunk: Bytes, before: bool, hit: bool)
    ensures KeptNext(limit, reserve, KeptOf(limit, reserve, seen, before), chunk, hit)
         == KeptOf(limit, reserve, seen + chunk, before || hit)
  {
    DataGrows(seen, chunk, limit + reserve);
    if reserve > 1 { LastOfLast(seen, chunk, reserve - 1); }
  }

  /** `_BoundedCapture`. `seen` is everything added so far. */
  class BoundedCapture {
    const limit: nat
    const reserve: nat
    const secrets: seq<Bytes>
    var data: Bytes
    var total: nat
    var exceeded: bool
    var secretDetected: bool
    var secretTail: Bytes
    var error: bool
    ghost var seen: Bytes

    ghost function Fields(): Kept
      reads this
    {
      Kept(data, total, exceeded, secretDetected, secretTail)
    }

    ghost predicate Valid()
      reads this
    {
      && reserve == Longest(secrets) && (forall k :: 0 <= k < |secrets| ==> secrets[k] != [])
      && Fields() == KeptOf(limit, reserve, seen, AnyOccurs(secrets, seen))
    }

    constructor (limit: nat, secrets: seq<Bytes>)
      requires forall k :: 0 <= k < |secrets| ==> secrets[k] != []
      ensures Valid() && seen == [] && !error && this.limit == limit && this.secrets == secrets
    {
      this.limit, this.secrets, reserve := limit, secrets, Longest(secrets);
      data, total, exceeded, secretDetected, secretTail, error, seen := [], 0, false, false, [], false, [];
    }

    /** `add`: for any chunk, the new state is the one the longer stream determines. */
    method Add(chunk: Bytes)
      requires Valid()
      modifies this
      ensures Valid() && seen == old(seen) + chunk && error == old(error)
    {
      var hit := AnyOccurs(secrets, secretTail + chunk);
      DetectionGrows(secrets, limit, seen, secretDetected, chunk);
      KeptGrows(limit, reserve, seen, chunk, secretDetected, hit);
      Take(chunk, hit);
      seen := seen + chunk;
    }

    /** The fields after a chunk whose scan said `hit`. */
    method Take(chunk: Bytes, hit: bool)
      modifies `data, `total, `exceeded, `secretDetected, `secretTail
      ensures Fields() == KeptNext(limit, reserve, old(Fields()), chunk, hit)
    {
      var scan := secretTail + chunk;
      if hit { secretDetected := true; }
      if reserve > 1 { secretTail := Last(scan, reserve - 1); }
      total := total + |chunk|;
      var keep := limit + reserve - |data|;
      if keep > 0 { data := data + First(chunk, keep); }
      if total > limit { exceeded := true; }
    }
  }

  // ----- A whole stream ----------------------------------------------------------------------------

  /** `_read_pipe`: adds chunks until the limit is passed, or the stream ends or, when `broken`, fails
      after them. `taken` is how many chunks were added. */
  method ReadPipe(capture: BoundedCapture, chunks: seq<Bytes>, broken: bool) returns (taken: nat)
    requires capture.Valid() && capture.seen == [] && !capture.error
    modifies capture
    ensures capture.Valid() && taken <= |chunks| && capture.seen == Concat(chunks[..taken])
    ensures taken == |chunks| || capture.exceeded
    ensures capture.exceeded <==> |Concat(chunks)| > capture.limit
    ensures capture.error <==> broken && !capture.exceeded
  {
    taken := 0;
    assert chunks[..0] == [];
    while taken < |chunks|
      invariant capture.Valid() && taken <= |chunks| && capture.seen == Concat(chunks[..taken]) && !capture.exceeded
      invariant !capture.error
    {
      assert chunks[..taken + 1][..taken] == chunks[..taken];
      capture.Add(chunks[taken]);
      taken := taken + 1;
      if capture.exceeded {
        ConcatGrows(chunks, taken);
        return;
      }
    }
    assert chunks[..taken] == chunks;
    capture.error := broken;
  }

  lemma {:induction false} ConcatGrows(chunks: seq<Bytes>, n: nat)
    requires n <= |chunks|
    ensures |Concat(chunks[..n])| <= |Concat(chunks)|
    decreases |chunks|
  {
    if n == |chunks| {
      assert chunks[..n] == chunks;
    } else {
      var front := chunks[..|chunks| - 1];
      assert front[..n] == chunks[..n];
      ConcatGrows(front, n);
    }
  }

  /** Two captures with the same limit and secrets that saw the same bytes are in the same state,
      however the stream was cut. */
  lemma ChunkingDoesNotMatter(a: BoundedCapture, b: BoundedCapture)
    requires a.Valid() && b.Valid() && a.limit == b.limit && a.secrets == b.secrets && a.seen == b.seen
    ensures a.data == b.data && a.total == b.total && a.exceeded == b.exceeded
    ensures a.secretDetected == b.secretDetected && a.secretTail == b.secretTail
  {
  }

  // ----- Rendering ---------------------------------------------------------------------------------

  const REDACTION: Bytes := [0x3C, 0x72, 0x65, 0x64, 0x61, 0x63, 0x74, 0x65, 0x64, 0x3E]

  /** `bytes.replace`: leftmost occurrences, without overlap. */
  function Replace(text: Bytes, secret: Bytes): Bytes
    requires secret != []
    decreases |text|
  {
    if text == [] then []
    else if OccursAt(secret, text, 0) then REDACTION + Replace(text[|secret|..], secret)
    else [text[0]] + Replace(text[1..], secret)
  }

  /** A secret at the head of what is left is replaced by `<redacted>`. */
  lemma SecretIsRedacted(secret: Bytes, after: Bytes)
    requires secret != []
    ensures Replace(secret + after, secret)
         == [0x3C, 0x72, 0x65, 0x64, 0x61, 0x63, 0x74, 0x65, 0x64, 0x3E] + Replace(after, secret)
  {
    assert (secret + after)[0..0 + |secret|] == secret && (secret + after)[|secret|..] == after;
  }

  lemma {:induction false} ReplaceAbsent(text: Bytes, secret: Bytes)
    requires secret != [] && !Occurs(secret, text)
    ensures Replace(text, secret) == text
    decreases |text|
  {
    if text != [] {
      forall i: nat | OccursAt(secret, text[1..], i) ensures OccursAt(secret, text, i + 1) {
        assert text[1..][i..i + |secret|] == text[i + 1..i + 1 + |secret|];
      }
      ReplaceAbsent(text[1..], secret);
    }
  }

  /** All of `ordered` are replaced in turn; `rendered` passes the secrets longest first. */
  function ReplaceAll(text: Bytes, ordered: seq<Bytes>): Bytes
    requires forall k :: 0 <= k < |ordered| ==> ordered[k] != []
    decreases |ordered|
  {
    if ordered == [] then text else ReplaceAll(Replace(text, ordered[0]), ordered[1..])
  }

  lemma {:induction false} ReplaceAllAbsent(text: Bytes, ordered: seq<Bytes>)
    requires forall k :: 0 <= k < |ordered| ==> ordered[k] != [] && !Occurs(ordered[k], text)
    ensures ReplaceAll(text, ordered) == text
    decreases |ordered|
  {
    if ordered != [] {
      ReplaceAbsent(text, ordered[0]);
      ReplaceAllAbsent(text, ordered[1..]);
    }
  }

  lemma OccursInPrefix(secret: Bytes, text: Bytes, n: nat)
    requires Occurs(secret, First(text, n))
    ensures Occurs(secret, text)
  {
    var i: nat :| i <= |First(text, n)| && OccursAt(secret, First(text, n), i);
    assert First(text, n)[i..i + |secret|] == text[i..i + |secret|];
    assert OccursAt(secret, text, i);
  }

  lemma NoneInPrefix(secrets: seq<Bytes>, text: Bytes, n: nat, secret: Bytes)
    requires !AnyOccurs(secrets, text) && secret in secrets
    ensures !Occurs(secret, First(text, n))
  {
    if Occurs(secret, First(text, n)) { OccursInPrefix(secret, text, n); }
  }

  lemma FirstOfFirst(text: Bytes, n: nat, m: nat)
    requires n <= m
    ensures First(First(text, m), n) == First(text, n)
  {
  }

  lemma CleanPrefixIsKept(secrets: seq<Bytes>, text: Bytes, m: nat, ordered: seq<Bytes>)
    requires !AnyOccurs(secrets, text)
    requires forall k :: 0 <= k < |ordered| ==> ordered[k] in secrets && ordered[k] != []
    ensures ReplaceAll(First(text, m), ordered) == First(text, m)
  {
    forall k | 0 <= k < |ordered| ensures !Occurs(ordered[k], First(text, m)) {
      NoneInPrefix(secrets, text, m, ordered[k]);
    }
    ReplaceAllAbsent(First(text, m), ordered);
  }

  /** A stream that holds no secret is rendered as its own first `limit` bytes: redaction changes
      nothing unless a secret was detected. */
  lemma RenderingKeepsCleanStreams(secrets: seq<Bytes>, seen: Bytes, limit: nat, reserve: nat, ordered: seq<Bytes>)
    requires !AnyOccurs(secrets, seen)
    requires forall k :: 0 <= k < |ordered| ==> ordered[k] in secrets && ordered[k] != []
    ensures First(ReplaceAll(First(seen, limit + reserve), ordered), limit) == First(seen, limit)
  {
    CleanPrefixIsKept(secrets, seen, limit + reserve, ordered);
    FirstOfFirst(seen, limit, limit + reserve);
  }
}

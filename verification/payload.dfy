/** The formatting quirk applied to the serialised request: the compact
    `"method":"` key is respaced in one of two ways, chosen by the request id,
    by a replace-all on the serialised text. */
module Payload {
  import opened GoArith
  import opened GoStrings

  /** The key as a compact JSON serialiser writes it. */
  const MethodToken: string := "\"method\":\""
  /** The usual respacing: a space after the colon. */
  const SingleSpaced: string := "\"method\": \""
  /** The rarer respacing: a space on both sides of the colon. */
  const DoubleSpaced: string := "\"method\" : \""
  /** The one input shape on which a rewrite leaves a token behind: a token
      immediately followed by another token without its opening quote. */
  const DoubledToken: string := MethodToken + MethodToken[1..]

  /** The selector, with Go's truncating `%` on the int64 id. */
  predicate UsesDoubleSpace(id: int) {
    TruncRem(id + 5, 29) == 0 || TruncRem(id + 3, 13) == 0
  }

  /** `s` with every space removed. */
  function WithoutSpaces(s: string): (r: string)
    ensures ' ' !in r
    ensures |r| <= |s|
    decreases |s|
  {
    if |s| == 0 then []
    else if s[0] == ' ' then WithoutSpaces(s[1..])
    else [s[0]] + WithoutSpaces(s[1..])
  }

  /** The spacing the request with this id uses. Whatever the sign of the id,
      the choice reads the same with Euclidean remainders. */
  function Spacing(id: int): (tok: string)
    ensures tok == DoubleSpaced <==> (id + 5) % 29 == 0 || (id + 3) % 13 == 0
    ensures tok == SingleSpaced <==> !((id + 5) % 29 == 0 || (id + 3) % 13 == 0)
  {
    TruncRemZeroIff(id + 5, 29);
    TruncRemZeroIff(id + 3, 13);
    if UsesDoubleSpace(id) then DoubleSpaced else SingleSpaced
  }

  /** Both choices are the compact key with spaces added. */
  lemma SpacingsCollapse()
    ensures WithoutSpaces(SingleSpaced) == MethodToken
    ensures WithoutSpaces(DoubleSpaced) == MethodToken
  {
    var key, colon, open := MethodToken[..8], MethodToken[8..9], MethodToken[9..];
    assert MethodToken == key + colon + open;
    assert SingleSpaced == key + colon + [' '] + open;
    assert DoubleSpaced == key + [' '] + colon + [' '] + open;
    NoSpacesKept(key);
    NoSpacesKept(colon);
    NoSpacesKept(open);
    WithoutSpacesAppend(key + colon, open);
    WithoutSpacesAppend(key, colon);
    WithoutSpacesAppend(key + colon + [' '], open);
    WithoutSpacesAppend(key + colon, [' ']);
    WithoutSpacesAppend(key + [' '] + colon + [' '], open);
    WithoutSpacesAppend(key + [' '] + colon, [' ']);
    WithoutSpacesAppend(key + [' '], colon);
    WithoutSpacesAppend(key, [' ']);
  }

  lemma {:induction false} WithoutSpacesAppend(a: string, b: string)
    ensures WithoutSpaces(a + b) == WithoutSpaces(a) + WithoutSpaces(b)
    decreases |a|
  {
    if |a| > 0 {
      assert (a + b)[1..] == a[1..] + b;
      WithoutSpacesAppend(a[1..], b);
    } else {
      assert a + b == b;
    }
  }

  lemma {:induction false} NoSpacesKept(s: string)
    requires ' ' !in s
    ensures WithoutSpaces(s) == s
    decreases |s|
  {
    if |s| > 0 {
      assert s == [s[0]] + s[1..];
      NoSpacesKept(s[1..]);
    }
  }

  /** The choice repeats every 377 = 29 * 13 ids. */
  lemma SpacingPeriodic(id: int)
    ensures Spacing(id + 377) == Spacing(id)
  {
  }

  /** The rewrite the client applies to the serialised request. */
  function Rewrite(id: int, serialized: string): (payload: string)
    ensures !Contains(serialized, DoubledToken) ==> !Contains(payload, MethodToken)
    ensures !Contains(serialized, Spacing(id)) ==> ReplaceAll(payload, Spacing(id), MethodToken) == serialized
    ensures !Contains(serialized, MethodToken) ==> payload == serialized
  {
    RewriteFacts(serialized, Spacing(id));
    ReplaceAll(serialized, MethodToken, Spacing(id))
  }

  /** Each compact key grows by the spaces its respacing adds. */
  lemma RewriteLength(id: int, serialized: string)
    ensures |Rewrite(id, serialized)| == |serialized| + Count(serialized, MethodToken) * (|Spacing(id)| - |MethodToken|)
  {
    ReplaceAllLength(serialized, MethodToken, Spacing(id));
  }

  lemma RewriteFacts(s: string, q: string)
    requires q == SingleSpaced || q == DoubleSpaced
    ensures !Contains(s, DoubledToken) ==> !Contains(ReplaceAll(s, MethodToken, q), MethodToken)
    ensures !Contains(s, q) ==> ReplaceAll(ReplaceAll(s, MethodToken, q), q, MethodToken) == s
    ensures !Contains(s, MethodToken) ==> ReplaceAll(s, MethodToken, q) == s
  {
    RespacingsValid();
    assert !Contains(s, DoubledToken) ==> !Contains(ReplaceAll(s, MethodToken, q), MethodToken) by {
      if !Contains(s, DoubledToken) {
        ReplaceRemovesPattern(s, MethodToken, q);
      }
    }
    assert !Contains(s, q) ==> ReplaceAll(ReplaceAll(s, MethodToken, q), q, MethodToken) == s by {
      if !Contains(s, q) {
        ReplaceInverse(s, MethodToken, q);
      }
    }
    if !Contains(s, MethodToken) {
      ReplaceAllAbsent(s, MethodToken, q);
    }
  }

  /** Both respacings meet the conditions under which the rewrite can be
      undone and leaves no compact token behind. */
  lemma RespacingsValid()
    ensures Respacing(MethodToken, SingleSpaced)
    ensures Respacing(MethodToken, DoubleSpaced)
  {
    var tail := MethodToken[1..|MethodToken| - 1];
    assert tail == "method\":";
    assert Inert(tail, SingleSpaced) && Inert(tail, DoubleSpaced) by {
      InertByMismatch(tail, SingleSpaced);
      InertByMismatch(tail, DoubleSpaced);
    }
    SingleSpacedInert();
    DoubleSpacedInert();
  }

  lemma SingleSpacedInert()
    ensures Inert(SingleSpaced[1..|SingleSpaced| - 1], SingleSpaced)
    ensures Inert(SingleSpaced[..|SingleSpaced| - 1], MethodToken)
  {
    var interior := SingleSpaced[1..|SingleSpaced| - 1];
    assert interior == "method\": ";
    InertByMismatch(interior, SingleSpaced);
    InertByMismatch(interior, MethodToken);
    HeadInert(SingleSpaced[..|SingleSpaced| - 1], interior, 9);
  }

  lemma DoubleSpacedInert()
    ensures Inert(DoubleSpaced[1..|DoubleSpaced| - 1], DoubleSpaced)
    ensures Inert(DoubleSpaced[..|DoubleSpaced| - 1], MethodToken)
  {
    var interior := DoubleSpaced[1..|DoubleSpaced| - 1];
    assert interior == "method\" : ";
    InertByMismatch(interior, DoubleSpaced);
    InertByMismatch(interior, MethodToken);
    HeadInert(DoubleSpaced[..|DoubleSpaced| - 1], interior, 8);
  }

  /** A respaced token minus its closing quote cannot hold a compact token:
      at its start the spacing breaks the match at `k`, and after its start the
      mismatch is immediate. */
  lemma HeadInert(v: string, interior: string, k: nat)
    requires |v| == |interior| + 1 && v[0] == '"' && v[1..] == interior
    requires k < |v| && k < |MethodToken| && v[k] != MethodToken[k]
    requires Inert(interior, MethodToken)
    ensures Inert(v, MethodToken)
  {
    var n := if |v| < |MethodToken| then |v| else |MethodToken|;
    assert v[..n][k] != MethodToken[..n][k];
  }

  /** The guard on the rewrite's first property cannot be dropped: a token
      followed by another token without its opening quote keeps a token
      after the rewrite. */
  lemma RewriteCanLeaveToken()
    ensures Contains(ReplaceAll(DoubledToken, MethodToken, SingleSpaced), MethodToken)
  {
    var rest := MethodToken[1..];
    assert HasPrefix(DoubledToken, MethodToken);
    assert DoubledToken[|MethodToken|..] == rest;
    assert ReplaceAll(rest, MethodToken, SingleSpaced) == rest by {
      ShortFree(rest, MethodToken);
      ReplaceAllAbsent(rest, MethodToken, SingleSpaced);
    }
    var out := ReplaceAll(DoubledToken, MethodToken, SingleSpaced);
    assert out == SingleSpaced + rest;
    assert out[|SingleSpaced| - 1..] == MethodToken;
    ContainsSuffix(out, |SingleSpaced| - 1, MethodToken);
  }
}

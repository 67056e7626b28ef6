/** The request-interception policy every page fetch installs
    (`genericScrapper`'s `request` handler): a request's declared resource
    type, trimmed and lower-cased, is aborted when it is on a fixed block list
    and continued otherwise. */
module ResourcePolicy {
  import opened Strings

  datatype Decision = Abort | Continue

  /** The twelve blocked resource types, in the order the handler lists them. */
  const BlockedTypes: seq<string> := [
    "image", "stylesheet", "media", "font", "texttrack", "object",
    "beacon", "csp_report", "imageset", "xhr", "other", "ping"
  ]

  /** `request.resourceType().trim().toLowerCase()`. */
  function Normalize(resourceType: string): (n: string)
    ensures Trimmed(n) && |n| <= |resourceType|
  {
    var t := Trim(resourceType);
    ToLowerTrimmed(t);
    ToLower(t)
  }

  /** The handler's decision for one request. */
  function Classify(resourceType: string): (d: Decision)
    ensures d == Abort <==> Normalize(resourceType) in BlockedTypes
    ensures d == Continue <==> Normalize(resourceType) !in BlockedTypes
  {
    if Normalize(resourceType) in BlockedTypes then Abort else Continue
  }

  predicate NoUpper(s: string) {
    forall i :: 0 <= i < |s| ==> !('A' <= s[i] <= 'Z')
  }

  /** A normal form has no white space at its ends and no upper-case letter. */
  lemma NormalizeShape(resourceType: string)
    ensures Trimmed(Normalize(resourceType)) && NoUpper(Normalize(resourceType))
  {
    var t := Trim(resourceType);
    ToLowerTrimmed(t);
    forall i | 0 <= i < |t|
      ensures !('A' <= ToLower(t)[i] <= 'Z')
    {
      LowerCharNotUpper(t[i]);
    }
  }

  /** A trimmed string without upper-case letters is already in normal form. */
  lemma NormalFixpoint(s: string)
    requires Trimmed(s) && NoUpper(s)
    ensures Normalize(s) == s
  {
    TrimFixpoint(s);
    assert ToLower(s) == s;
  }

  /** Lower-case letters and underscores only: the shape of every block-list entry. */
  predicate LowerWord(s: string) {
    forall i :: 0 <= i < |s| ==> 'a' <= s[i] <= 'z' || s[i] == '_'
  }

  lemma LowerWordNormal(s: string)
    ensures LowerWord(s) ==> Normalize(s) == s
  {
    if LowerWord(s) {
      assert Trimmed(s) && NoUpper(s);
      NormalFixpoint(s);
    }
  }

  /** Requests whose types share a normal form are treated alike. */
  lemma SameNormalSameDecision(a: string, b: string)
    requires Normalize(a) == Normalize(b)
    ensures Classify(a) == Classify(b)
  {
  }

  /** On a type already in normal form (the browser declares types in lower
      case), the decision is plain block-list membership. */
  lemma ClassifyNormalWord(s: string)
    requires LowerWord(s)
    ensures Classify(s) == Abort <==> s in BlockedTypes
  {
    LowerWordNormal(s);
  }

  /** The block list has twelve distinct entries. */
  lemma BlockedTypesDistinct()
    ensures |BlockedTypes| == 12
    ensures Distinct(BlockedTypes)
  {
  }

  /** Every entry of the block list, as the browser declares it, is aborted. */
  lemma BlockedTypesAborted()
    ensures forall i :: 0 <= i < |BlockedTypes| ==> Classify(BlockedTypes[i]) == Abort
  {
    forall i | 0 <= i < |BlockedTypes|
      ensures Classify(BlockedTypes[i]) == Abort
    {
      BlockedEntryAborted(i);
    }
  }

  lemma BlockedEntryAborted(i: nat)
    requires i < |BlockedTypes|
    ensures Classify(BlockedTypes[i]) == Abort
  {
    assert LowerWord(BlockedTypes[i]);
    ClassifyNormalWord(BlockedTypes[i]);
  }

  /** Normalizing twice is normalizing once: the policy is a function of the
      normal form of the type. */
  lemma NormalizeIdempotent(resourceType: string)
    ensures Normalize(Normalize(resourceType)) == Normalize(resourceType)
    ensures Classify(Normalize(resourceType)) == Classify(resourceType)
  {
    NormalizeShape(resourceType);
    NormalFixpoint(Normalize(resourceType));
    SameNormalSameDecision(Normalize(resourceType), resourceType);
  }

  /** Surrounding white space and letter case never change the decision. */
  lemma ClassifyIgnoresPaddingAndCase(w1: string, t: string, w2: string)
    requires AllWhitespace(w1) && AllWhitespace(w2)
    ensures Classify(w1 + t + w2) == Classify(t)
    ensures Classify(ToLower(t)) == Classify(t)
  {
    TrimPadding(w1, t, w2);
    SameNormalSameDecision(w1 + t + w2, t);
    TrimToLower(t);
    ToLowerIdempotent(Trim(t));
    SameNormalSameDecision(ToLower(t), t);
  }

  /** Lowering before trimming gives the same normal form. */
  lemma TrimToLower(s: string)
    ensures Trim(ToLower(s)) == ToLower(Trim(s))
  {
    var i := TrimIsInfix(s);
    var r := Trim(s);
    PaddedSplit(s, r, i);
    LowerPadded(s[..i], r, s[i + |r|..]);
  }

  lemma PaddedSplit(s: string, r: string, i: int)
    requires PaddedAt(s, r, i)
    ensures s == s[..i] + r + s[i + |r|..]
  {
  }

  /** The lowered trim of a padded trimmed string is the lowered string. */
  lemma LowerPadded(a: string, r: string, b: string)
    requires AllWhitespace(a) && AllWhitespace(b) && Trimmed(r)
    ensures Trim(ToLower(a + r + b)) == ToLower(r)
  {
    ToLowerAppend(a, r, b);
    ToLowerWhitespace(a);
    ToLowerWhitespace(b);
    TrimPadding(ToLower(a), ToLower(r), ToLower(b));
    ToLowerTrimmed(r);
    TrimFixpoint(ToLower(r));
  }

  lemma ToLowerAppend(a: string, r: string, b: string)
    ensures ToLower(a + r + b) == ToLower(a) + ToLower(r) + ToLower(b)
  {
  }

  lemma ToLowerWhitespace(w: string)
    requires AllWhitespace(w)
    ensures AllWhitespace(ToLower(w))
  {
  }
}

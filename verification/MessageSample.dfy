/** The sample of a message that goes into the audit log (engine/moderation/ContentModerator.cpp): cut
    between characters, with an ellipsis. */
module MessageSample {
  import opened Utf8
  import opened Utf8Bytes

  const ELLIPSIS: seq<CodeUnit> := [0xE2, 0x80, 0xA6]

  /** The last position up to `cut` that holds no tail byte, or zero. */
  function StepBack(s: seq<CodeUnit>, cut: nat): (c: nat)
    requires cut < |s|
    ensures c <= cut && (c > 0 ==> !IsTail(s[c]))
    ensures forall k :: c < k <= cut ==> IsTail(s[k])
  {
    if cut > 0 && IsTail(s[cut]) then StepBack(s, cut - 1) else cut
  }

  function SequenceLength(lead: CodeUnit): nat {
    if lead < 0x80 then 1 else LeadWidth(lead)
  }

  /** Where a message of more than `max` bytes is cut. */
  function CutAt(s: seq<CodeUnit>, max: nat): (c: nat)
    requires 0 < max < |s|
    ensures c <= max
  {
    var cut := StepBack(s, max);
    if cut > 0 && (SequenceLength(s[cut]) == 0 || cut + SequenceLength(s[cut]) > |s|) then StepBack(s, cut - 1) else cut
  }

  function Sampled(s: seq<CodeUnit>, max: int): seq<CodeUnit> {
    if max <= 0 || |s| <= max then s else s[..CutAt(s, max)] + ELLIPSIS
  }

  /** A well-formed message is cut to its longest well-formed prefix of at most `max` bytes, and what is
      written is well-formed. */
  lemma SampleIsLongest(s: seq<CodeUnit>, max: nat, k: nat)
    requires WellFormed(s) && 0 < max < |s|
    ensures var cut := CutAt(s, max);
      && WellFormed(s[..cut])
      && (cut < k <= max ==> !WellFormed(s[..k]))
      && Sampled(s, max) == s[..cut] + ELLIPSIS && WellFormed(Sampled(s, max))
  {
    var cut := CutIsBoundary(s, max);
    if cut < k <= max {
      PrefixIff(s, k);
    }
    EllipsisWellFormed();
    WellFormedJoin(s[..cut], ELLIPSIS);
  }

  lemma CutIsBoundary(s: seq<CodeUnit>, max: nat) returns (cut: nat)
    requires WellFormed(s) && 0 < max < |s|
    ensures cut == StepBack(s, max) == CutAt(s, max) && WellFormed(s[..cut])
  {
    cut := StepBack(s, max);
    FirstIsNoTail(s);
    PrefixIff(s, cut);
    SuffixWellFormed(s, cut);
    LeadTellsWidth(s[cut..]);
  }

  lemma FirstIsNoTail(s: seq<CodeUnit>)
    requires WellFormed(s) && s != []
    ensures !IsTail(s[0])
  {
    SequenceShape(s, 0);
  }

  lemma EllipsisWellFormed()
    ensures WellFormed(ELLIPSIS)
  {
    EncodedWellFormed(0x2026);
    assert Encode(0x2026) == ELLIPSIS;
  }

  /** Sizes are compared as 32-bit signed numbers, which a message never exceeds. */
  method Sample(s: seq<CodeUnit>, max: int) returns (out: seq<CodeUnit>)
    requires |s| < 0x8000_0000
    ensures out == Sampled(s, max)
  {
    if max <= 0 || |s| <= max { return s; }
    var cut := max;
    while cut > 0 && IsTail(s[cut])
      invariant 0 <= cut <= max && StepBack(s, cut) == StepBack(s, max)
    {
      cut := cut - 1;
    }
    if cut > 0 && cut < |s| {
      var length := SequenceLength(s[cut]);
      if length == 0 || cut + length > |s| {
        cut := cut - 1;
        ghost var from := cut;
        while cut > 0 && IsTail(s[cut])
          invariant 0 <= cut <= from && StepBack(s, cut) == StepBack(s, from)
        {
          cut := cut - 1;
        }
      }
    }
    return s[..cut] + ELLIPSIS;
  }
}

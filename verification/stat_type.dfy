/** The supported statistics (StatType), their lower-case names, and the
    case-insensitive lookup that falls back to UNSUPPORTED instead of null. */
module StatTypes {
  import opened Results

  datatype StatType = Average | Max | Min | Unsupported

  /** `toString`: the constant's lower-case name. */
  function Name(t: StatType): (r: string)
    ensures |r| > 0
    ensures forall i :: 0 <= i < |r| ==> 'a' <= r[i] <= 'z' && ToLowerAscii(r[i]) == r[i]
  {
    match t
    case Average => "average"
    case Max => "max"
    case Min => "min"
    case Unsupported => "unsupported"
  }

  function ToLowerAscii(c: char): char {
    if 'A' <= c <= 'Z' then ((c as int) + 32) as char else c
  }

  /** `String.equalsIgnoreCase`, with case folded on ASCII letters only. */
  predicate EqualsIgnoreCase(a: string, b: string) {
    && |a| == |b|
    && forall i :: 0 <= i < |a| ==> ToLowerAscii(a[i]) == ToLowerAscii(b[i])
  }

  /** `equalsName`: a null name matches no constant. */
  predicate EqualsName(t: StatType, otherName: Option<string>): (b: bool)
    ensures otherName.None? ==> !b
    ensures b ==> |otherName.value| == |Name(t)|
    ensures otherName == Some(Name(t)) ==> b
  {
    otherName.Some? && EqualsIgnoreCase(Name(t), otherName.value)
  }

  /** `values()`: the constants in declaration order. */
  const Values: seq<StatType> := [Average, Max, Min, Unsupported]

  /** No candidate's name matches. */
  predicate NoneMatch(candidates: seq<StatType>, statName: Option<string>) {
    forall j :: 0 <= j < |candidates| ==> !EqualsName(candidates[j], statName)
  }

  /** The loop of `fromString`: a matching candidate when there is one, else
      UNSUPPORTED. (The candidates' names never match the same string twice, so
      "a match" is "the first match".) */
  function FirstMatch(candidates: seq<StatType>, statName: Option<string>): (r: StatType)
    ensures NoneMatch(candidates, statName) ==> r == Unsupported
    ensures !NoneMatch(candidates, statName) ==> r in candidates && EqualsName(r, statName)
  {
    if |candidates| == 0 then Unsupported
    else if EqualsName(candidates[0], statName) then candidates[0]
    else
      var rest := candidates[1..];
      assert NoneMatch(candidates, statName) <==> NoneMatch(rest, statName) by {
        assert forall j :: 0 <= j < |rest| ==> rest[j] == candidates[j + 1];
        assert forall j :: 0 < j < |candidates| ==> candidates[j] == rest[j - 1];
      }
      FirstMatch(rest, statName)
  }

  /** No string matches two of the three supported names. */
  lemma NamesDistinct(n: Option<string>)
    ensures !(EqualsName(Average, n) && EqualsName(Max, n))
    ensures !(EqualsName(Average, n) && EqualsName(Min, n))
    ensures !(EqualsName(Max, n) && EqualsName(Min, n))
    ensures !(EqualsName(Unsupported, n) && (EqualsName(Average, n) || EqualsName(Max, n) || EqualsName(Min, n)))
  {
    if EqualsName(Max, n) {
      assert ToLowerAscii(n.value[1]) == 'a';
      assert ToLowerAscii(Name(Min)[1]) == 'i';
    }
  }

  /** `fromString`: AVERAGE, MAX or MIN when the name matches one of them in any
      ASCII letter case, otherwise (including null) UNSUPPORTED. */
  function FromString(statName: Option<string>): (r: StatType)
    ensures r == Average <==> EqualsName(Average, statName)
    ensures r == Max <==> EqualsName(Max, statName)
    ensures r == Min <==> EqualsName(Min, statName)
    ensures r == Unsupported <==>
              !EqualsName(Average, statName) && !EqualsName(Max, statName) && !EqualsName(Min, statName)
  {
    NamesDistinct(statName);
    var r := FirstMatch(Values, statName);
    assert Values[0] == Average && Values[1] == Max && Values[2] == Min && Values[3] == Unsupported;
    r
  }

  /** A null name is UNSUPPORTED. */
  lemma FromStringNull()
    ensures FromString(None) == Unsupported
  {
  }

  /** Any spelling of a supported name that differs from it only in the case of
      ASCII letters finds that constant. */
  lemma FromStringAnyCase(t: StatType, s: string)
    requires t != Unsupported
    requires |s| == |Name(t)|
    requires forall i :: 0 <= i < |s| ==> ToLowerAscii(s[i]) == Name(t)[i]
    ensures FromString(Some(s)) == t
  {
    assert forall i :: 0 <= i < |s| ==> ToLowerAscii(Name(t)[i]) == Name(t)[i];
  }

  /** Round trip: every constant is found again from its `toString`. */
  lemma NameRoundTrip(t: StatType)
    ensures FromString(Some(Name(t))) == t
  {
    var n := Name(t);
    assert forall i :: 0 <= i < |n| ==> ToLowerAscii(n[i]) == n[i];
    assert EqualsIgnoreCase(n, n);
  }
}

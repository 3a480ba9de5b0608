/** Clearance levels and the row filter that every governed read goes through. */
module Clearances {
  import opened Wrappers

  datatype Clearance = UNCLASSIFIED | RESTRICTED | CONFIDENTIAL | SECRET {
    function Rank(): nat {
      match this
      case UNCLASSIFIED => 0
      case RESTRICTED => 1
      case CONFIDENTIAL => 2
      case SECRET => 3
    }

    function Label(): string {
      match this
      case UNCLASSIFIED => "UNCLASSIFIED"
      case RESTRICTED => "RESTRICTED"
      case CONFIDENTIAL => "CONFIDENTIAL"
      case SECRET => "SECRET"
    }
  }

  predicate AtMost(a: Clearance, b: Clearance) { a.Rank() <= b.Rank() }

  function Greater(a: Clearance, b: Clearance): Clearance { if a.Rank() >= b.Rank() then a else b }

  function UpperChar(c: char): char { if 'a' <= c <= 'z' then (c as int - 32) as char else c }

  function Upper(s: string): (r: string)
    ensures |r| == |s| && forall i :: 0 <= i < |s| ==> r[i] == UpperChar(s[i])
  {
    seq(|s|, i requires 0 <= i < |s| => UpperChar(s[i]))
  }

  /** `Clearance.from_label`: the name of a level in any case, and nothing else. */
  function FromLabel(marking: string): Option<Clearance> {
    var name := Upper(marking);
    if name == "UNCLASSIFIED" then Some(UNCLASSIFIED)
    else if name == "RESTRICTED" then Some(RESTRICTED)
    else if name == "CONFIDENTIAL" then Some(CONFIDENTIAL)
    else if name == "SECRET" then Some(SECRET)
    else None
  }

  lemma LabelReads(c: Clearance)
    ensures FromLabel(c.Label()) == Some(c)
  {
    assert Upper("UNCLASSIFIED") == "UNCLASSIFIED" && Upper("RESTRICTED") == "RESTRICTED";
    assert Upper("CONFIDENTIAL") == "CONFIDENTIAL" && Upper("SECRET") == "SECRET";
    assert |"SECRET"| != |"CONFIDENTIAL"| && "RESTRICTED"[0] != "UNCLASSIFIED"[0];
    assert |"CONFIDENTIAL"| == |"UNCLASSIFIED"| && "CONFIDENTIAL"[0] != "UNCLASSIFIED"[0];
    assert "RESTRICTED"[0] != "CONFIDENTIAL"[0] && "RESTRICTED"[0] != "SECRET"[0];
  }

  /** `clearance_permits`: an unknown label is denied. */
  predicate Permits(level: Clearance, marking: string) {
    var floor := FromLabel(marking);
    floor.Some? && AtMost(floor.value, level)
  }

  /** The same letters, capital or not. */
  predicate Spells(marking: string, word: string) {
    |marking| == |word| && forall i :: 0 <= i < |word| ==>
      marking[i] == word[i] || ('A' <= word[i] <= 'Z' && marking[i] as int == word[i] as int + 32)
  }

  lemma SpellsIff(marking: string, word: string)
    requires forall i :: 0 <= i < |word| ==> 'A' <= word[i] <= 'Z'
    ensures Upper(marking) == word <==> Spells(marking, word)
  {
    if Upper(marking) == word {
      forall i | 0 <= i < |word|
        ensures marking[i] == word[i] || ('A' <= word[i] <= 'Z' && marking[i] as int == word[i] as int + 32)
      {
        assert Upper(marking)[i] == word[i];
      }
    }
  }

  /** Each level reads its own label and those below it; an unknown label nobody reads. */
  lemma PermitsIff(level: Clearance, marking: string)
    ensures Permits(level, marking) <==>
            || Spells(marking, "UNCLASSIFIED")
            || (Spells(marking, "RESTRICTED") && (level == RESTRICTED || level == CONFIDENTIAL || level == SECRET))
            || (Spells(marking, "CONFIDENTIAL") && (level == CONFIDENTIAL || level == SECRET))
            || (Spells(marking, "SECRET") && level == SECRET)
    ensures FromLabel(marking).None? <==>
            && !Spells(marking, "UNCLASSIFIED") && !Spells(marking, "RESTRICTED")
            && !Spells(marking, "CONFIDENTIAL") && !Spells(marking, "SECRET")
  {
    SpellsIff(marking, "UNCLASSIFIED");
    SpellsIff(marking, "RESTRICTED");
    SpellsIff(marking, "CONFIDENTIAL");
    SpellsIff(marking, "SECRET");
    assert "UNCLASSIFIED"[0] != "CONFIDENTIAL"[0];
  }
}

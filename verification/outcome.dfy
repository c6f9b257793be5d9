/** The enrollment outcome classifier: a free-text outcome description is
    mapped to one of five categories by ordered substring rules, the first
    matching rule winning. */
module Outcome {
  import opened Wrappers
  import opened Text

  datatype Category = Aprovada | Reprovada | Trancada | Indeferido | Outros

  /** The label the pipeline stores and uses to name the pivot columns. */
  function Name(c: Category): string {
    match c
    case Aprovada => "aprovada"
    case Reprovada => "reprovada"
    case Trancada => "trancada"
    case Indeferido => "indeferido"
    case Outros => "outros"
  }

  lemma NameInjective(a: Category, b: Category)
    ensures Name(a) == Name(b) ==> a == b
  {
  }

  /** A classification rule: any of its markers selects its category. */
  datatype Rule = Rule(markers: seq<string>, category: Category)

  /** The rule table, in priority order. Text matching none of them is
      `Outros`. */
  const Rules: seq<Rule> := [
    Rule(["APROVADO", "DISPENSADO"], Aprovada),
    Rule(["REPROVADO"], Reprovada),
    Rule(["TRANCADO", "CANCELADO", "DESISTENCIA"], Trancada),
    Rule(["INDEFERIDO"], Indeferido)
  ]

  predicate ContainsAny(text: string, markers: seq<string>) {
    |markers| > 0 && (Contains(text, markers[0]) || ContainsAny(text, markers[1..]))
  }

  /** Top-to-bottom evaluation of a rule table. */
  function FirstMatch(rules: seq<Rule>, text: string): Category {
    if |rules| == 0 then Outros
    else if ContainsAny(text, rules[0].markers) then rules[0].category
    else FirstMatch(rules[1..], text)
  }

  /** The key the rules are matched against: the trimmed, upper-cased text. */
  function MatchKey(description: string): string {
    Upper(Strip(description))
  }

  /** The rule table spelled out as nested conditions. */
  lemma RuleTableUnfolded(u: string)
    ensures FirstMatch(Rules, u) ==
      if Contains(u, "APROVADO") || Contains(u, "DISPENSADO") then Aprovada
      else if Contains(u, "REPROVADO") then Reprovada
      else if Contains(u, "TRANCADO") || Contains(u, "CANCELADO") || Contains(u, "DESISTENCIA") then Trancada
      else if Contains(u, "INDEFERIDO") then Indeferido
      else Outros
  {
    var r0, r1, r2, r3 := Rules[0], Rules[1], Rules[2], Rules[3];
    assert ContainsAny(u, r0.markers) <==> Contains(u, "APROVADO") || Contains(u, "DISPENSADO") by {
      assert r0.markers[1..] == ["DISPENSADO"];
      assert ContainsAny(u, ["DISPENSADO"]) == Contains(u, "DISPENSADO") by {
        assert ["DISPENSADO"][1..] == [];
      }
    }
    assert ContainsAny(u, r1.markers) <==> Contains(u, "REPROVADO") by {
      assert r1.markers[1..] == [];
    }
    assert ContainsAny(u, r2.markers) <==>
      Contains(u, "TRANCADO") || Contains(u, "CANCELADO") || Contains(u, "DESISTENCIA") by {
      assert r2.markers[1..] == ["CANCELADO", "DESISTENCIA"];
      assert ContainsAny(u, ["DESISTENCIA"]) == Contains(u, "DESISTENCIA") by {
        assert ["DESISTENCIA"][1..] == [];
      }
      assert ContainsAny(u, ["CANCELADO", "DESISTENCIA"]) ==
        (Contains(u, "CANCELADO") || ContainsAny(u, ["DESISTENCIA"])) by {
        assert ["CANCELADO", "DESISTENCIA"][1..] == ["DESISTENCIA"];
      }
    }
    assert ContainsAny(u, r3.markers) <==> Contains(u, "INDEFERIDO") by {
      assert r3.markers[1..] == [];
    }
    assert Rules[1..] == [r1, r2, r3];
    assert [r1, r2, r3][1..] == [r2, r3];
    assert [r2, r3][1..] == [r3];
    assert [r3][1..] == [];
    assert FirstMatch([r3], u) == if ContainsAny(u, r3.markers) then Indeferido else Outros;
    assert FirstMatch([r2, r3], u) == if ContainsAny(u, r2.markers) then Trancada else FirstMatch([r3], u);
    assert FirstMatch([r1, r2, r3], u) == if ContainsAny(u, r1.markers) then Reprovada else FirstMatch([r2, r3], u);
  }

  /** `categorizar_descricao`. A missing description is `Outros`; otherwise
      the result is the category of the first rule of the table whose
      marker occurs in the trimmed, upper-cased description. */
  function Categorize(description: Option<string>): (r: Category)
    ensures description.None? ==> r == Outros
    ensures description.Some? ==> r == FirstMatch(Rules, MatchKey(description.value))
  {
    if description.None? then Outros
    else
      var desc := MatchKey(description.value);
      RuleTableUnfolded(desc);
      if Contains(desc, "APROVADO") || Contains(desc, "DISPENSADO") then Aprovada
      else if Contains(desc, "REPROVADO") then Reprovada
      else if Contains(desc, "TRANCADO") || Contains(desc, "CANCELADO") || Contains(desc, "DESISTENCIA") then Trancada
      else if Contains(desc, "INDEFERIDO") then Indeferido
      else Outros
  }

  /** Rule priority: each category is chosen exactly when one of its markers
      occurs and no marker of a higher-priority rule does. */
  lemma CategorizePriority(d: string)
    ensures var u := MatchKey(d);
      var aprov := Contains(u, "APROVADO") || Contains(u, "DISPENSADO");
      var reprov := Contains(u, "REPROVADO");
      var tranc := Contains(u, "TRANCADO") || Contains(u, "CANCELADO") || Contains(u, "DESISTENCIA");
      var indef := Contains(u, "INDEFERIDO");
      && (Categorize(Some(d)) == Aprovada <==> aprov)
      && (Categorize(Some(d)) == Reprovada <==> !aprov && reprov)
      && (Categorize(Some(d)) == Trancada <==> !aprov && !reprov && tranc)
      && (Categorize(Some(d)) == Indeferido <==> !aprov && !reprov && !tranc && indef)
      && (Categorize(Some(d)) == Outros <==> !aprov && !reprov && !tranc && !indef)
  {
    RuleTableUnfolded(MatchKey(d));
  }

  /** Matching is case-insensitive. */
  lemma CategorizeIgnoresCase(d: string)
    ensures Categorize(Some(Lower(d))) == Categorize(Some(d))
    ensures Categorize(Some(Upper(d))) == Categorize(Some(d))
  {
    StripLower(d);
    UpperOfLower(Strip(d));
    StripUpper(d);
    UpperOfUpper(Strip(d));
  }

  /** Surrounding white space is ignored. */
  lemma CategorizeIgnoresSurroundingSpace(d: string)
    ensures Categorize(Some(Strip(d))) == Categorize(Some(d))
  {
    StripIdempotent(d);
  }

  /** "APROVADO POR NOTA" is an approval. */
  lemma ApprovedByGrade()
    ensures Categorize(Some("APROVADO POR NOTA")) == Aprovada
  {
    var d := "APROVADO POR NOTA";
    StripFixed(d);
    forall i | 0 <= i < |d|
      ensures Upper(d)[i] == d[i]
    {
      assert Upper(d)[i] == UpperChar(d[i]);
      assert !IsLowerLetter(d[i]);
    }
    assert MatchKey(d) == d;
    assert OccursAt(d, "APROVADO", 0);
    RuleTableUnfolded(d);
  }

  /** "reprovado por faltas" is a failure: case does not matter, and the
      "PROVADO" inside it is not "APROVADO". */
  lemma FailedByAbsence()
    ensures Categorize(Some("reprovado por faltas")) == Reprovada
  {
    var u := "REPROVADO POR FALTAS";
    FailedKey();
    assert OccursAt(u, "REPROVADO", 0);
    NoApprovalMarker();
    RuleTableUnfolded(u);
  }

  lemma FailedKey()
    ensures MatchKey("reprovado por faltas") == "REPROVADO POR FALTAS"
  {
    var d := "reprovado por faltas";
    var u := "REPROVADO POR FALTAS";
    StripFixed(d);
    forall i | 0 <= i < |d|
      ensures Upper(d)[i] == u[i]
    {
      assert Upper(d)[i] == UpperChar(d[i]);
      assert IsLowerLetter(d[i]) <==> d[i] != ' ';
    }
  }

  lemma NoApprovalMarker()
    ensures !Contains("REPROVADO POR FALTAS", "APROVADO")
    ensures !Contains("REPROVADO POR FALTAS", "DISPENSADO")
  {
    var u := "REPROVADO POR FALTAS";
    forall i | 0 <= i <= |u|
      ensures !OccursAt(u, "APROVADO", i)
    {
      assert i + 8 <= |u| ==> u[i..i + 8][0] == u[i] && u[i..i + 8][1] == u[i + 1];
    }
    forall i | 0 <= i <= |u|
      ensures !OccursAt(u, "DISPENSADO", i)
    {
      assert i + 10 <= |u| ==> u[i..i + 10][0] == u[i] && u[i..i + 10][1] == u[i + 1];
    }
  }
}

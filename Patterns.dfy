/**
 * The warning registry and the line classifier of Script_Multi_Warn_imports.py
 * (lines 67-91 and 116-160): an ordered list of named patterns, tried in
 * order on a stripped line; the first that matches gives the one record the
 * line produces.
 *
 * The regular expressions are not modelled as an engine: each is a function
 * from the line to its capture groups, and `ValidMatchers` states what the
 * groups of a match look like.
 */
module Patterns {
  import opened Wrappers
  import opened Text

  /** The capture groups of a match, `match.groups()`. */
  type Captures = seq<string>

  const CodeBarresDejaPresent: string := "code_barres_deja_present"
  const SimilaireDIA107: string := "similaire_DIA107"
  const CauseDIA107: string := "DIA107"

  /** Groups of `WARN>.*Titre\s*:\s*(\S+).*Code-barres\s*(\d+).*déjà présent`:
      a title token and a barcode of digits, both taken from the line. */
  ghost predicate CodeBarresShape(line: string, g: Captures)
  {
    |g| == 2 && IsToken(g[0]) && IsDigits(g[1]) && IsInfix(g[0], line) && IsInfix(g[1], line)
  }

  /** Groups of `Not\.?\s+liée\s+\(cd=(\S+)\)\s+Trouvée?\s+similaire\s+à\s+(\S+)\s+cause\s*:\s*(DIA107)`
      (ignoring case): the linked record, the similar record, and the cause as
      the line spells it. */
  ghost predicate SimilaireShape(line: string, g: Captures)
  {
    && |g| == 3 && IsToken(g[0]) && IsToken(g[1]) && EqualsIgnoreCase(g[2], CauseDIA107)
    && IsInfix(g[0], line) && IsInfix(g[1], line) && IsInfix(g[2], line)
  }

  /** A `search` that finds the barcode warning only with groups of its shape. */
  ghost predicate CodeBarresMatcher(search: string -> Option<Captures>)
  {
    forall line :: search(line).Some? ==> CodeBarresShape(line, search(line).value)
  }

  /** The three compiled expressions of the script: the two warnings and the
      stand-alone title search `Titre\s*:\s*(\S+)`. */
  datatype Matchers = Matchers(
    codeBarres: string -> Option<Captures>,
    similaire: string -> Option<Captures>,
    titre: string -> Option<string>)

  ghost predicate ValidMatchers(m: Matchers)
  {
    && CodeBarresMatcher(m.codeBarres)
    && (forall line :: m.similaire(line).Some? ==> SimilaireShape(line, m.similaire(line).value))
    && (forall line :: m.titre(line).Some? ==> IsToken(m.titre(line).value) && IsInfix(m.titre(line).value, line))
  }

  /** One entry of `WARN_PATTERNS`. */
  datatype WarnPattern = WarnPattern(name: string, regex: string -> Option<Captures>, extractTitle: bool)

  /** `WARN_PATTERNS`, in priority order. */
  function Registry(m: Matchers): (r: seq<WarnPattern>)
    ensures |r| == 2 && r[0].name == CodeBarresDejaPresent && r[1].name == SimilaireDIA107
    ensures r[0].regex == m.codeBarres && r[1].regex == m.similaire
    ensures forall k :: 0 <= k < |r| ==> (r[k].extractTitle <==> r[k].name == SimilaireDIA107)
  {
    [WarnPattern(CodeBarresDejaPresent, m.codeBarres, false),
     WarnPattern(SimilaireDIA107, m.similaire, true)]
  }

  /** The first pattern of `patterns` that finds something in `line`, by index,
      with its groups. */
  function FirstMatch(patterns: seq<WarnPattern>, line: string): (r: Option<(nat, Captures)>)
    ensures r.None? ==> forall k :: 0 <= k < |patterns| ==> patterns[k].regex(line).None?
    ensures r.Some? ==> && r.value.0 < |patterns|
                        && patterns[r.value.0].regex(line) == Some(r.value.1)
                        && forall k :: 0 <= k < r.value.0 ==> patterns[k].regex(line).None?
  {
    if patterns == [] then None
    else match patterns[0].regex(line)
      case Some(g) => Some((0, g))
      case None =>
        match FirstMatch(patterns[1..], line)
        case None => None
        case Some((k, g)) => Some((k + 1, g))
  }

  /** One output row; the columns of the CSV file. */
  datatype Row = Row(
    typeWarn: string,
    fichier: string,
    titre: string,
    codeBarres: string,
    noticeLiee: string,
    similaire: string,
    cause: string,
    ligneFichier: nat,
    messageComplet: string)

  /** The title the stand-alone title search finds in the line, or "". */
  function TitreOrEmpty(titre: string -> Option<string>, line: string): (r: string)
    ensures r == "" || titre(line) == Some(r)
    ensures titre(line).Some? ==> r == titre(line).value
  {
    match titre(line)
    case Some(t) => t
    case None => ""
  }

  /** The row built from a match of `warn` with groups `g`: the title from the
      groups or from the title search, the warning's own fields from its
      groups, and "" for every other field. */
  function BuildRow(warn: WarnPattern, g: Captures, titre: string -> Option<string>,
                    fichier: string, num: nat, line: string): (r: Row)
    requires warn.name == CodeBarresDejaPresent ==> |g| >= 2
    requires warn.name == SimilaireDIA107 ==> |g| >= 3
    ensures r.typeWarn == warn.name && r.fichier == fichier && r.ligneFichier == num && r.messageComplet == line
    ensures warn.extractTitle ==> r.titre == TitreOrEmpty(titre, line)
    ensures warn.name != CodeBarresDejaPresent ==> r.codeBarres == ""
    ensures warn.name != SimilaireDIA107 ==> r.noticeLiee == "" && r.similaire == "" && r.cause == ""
  {
    var titreValue := if warn.extractTitle then TitreOrEmpty(titre, line)
                      else if |g| > 0 then g[0] else "";
    if warn.name == CodeBarresDejaPresent then
      Row(warn.name, fichier, titreValue, g[1], "", "", "", num, line)
    else if warn.name == SimilaireDIA107 then
      Row(warn.name, fichier, titreValue, "", g[0], g[1], g[2], num, line)
    else
      Row(warn.name, fichier, titreValue, "", "", "", "", num, line)
  }

  /** The record a stripped line produces, if any. The barcode warning wins
      over the DIA107 warning; a DIA107 line without a title still gives a
      record, with an empty title. */
  function ClassifyLine(m: Matchers, fichier: string, num: nat, line: string): (r: Option<Row>)
    requires ValidMatchers(m)
    ensures r.None? <==> m.codeBarres(line).None? && m.similaire(line).None?
    ensures r.Some? ==> r.value.fichier == fichier && r.value.ligneFichier == num && r.value.messageComplet == line
    ensures m.codeBarres(line).Some? ==>
              var g := m.codeBarres(line).value;
              r == Some(Row(CodeBarresDejaPresent, fichier, g[0], g[1], "", "", "", num, line))
    ensures m.codeBarres(line).None? && m.similaire(line).Some? ==>
              var g := m.similaire(line).value;
              r == Some(Row(SimilaireDIA107, fichier, TitreOrEmpty(m.titre, line), "", g[0], g[1], g[2], num, line))
  {
    var patterns := Registry(m);
    assert |patterns| == 2 && patterns[0].regex == m.codeBarres && patterns[1].regex == m.similaire;
    match FirstMatch(patterns, line)
    case None => None
    case Some((k, g)) =>
      Some(BuildRow(patterns[k], g, m.titre, fichier, num, line))
  }

  /** What the fields of a record hold: a barcode record has a title token and
      a barcode of digits; a DIA107 record has two record ids, the cause
      "DIA107" in the line's own casing, and a title token or "" when the
      line has no title. */
  lemma ClassifiedFields(m: Matchers, fichier: string, num: nat, line: string)
    requires ValidMatchers(m)
    requires ClassifyLine(m, fichier, num, line).Some?
    ensures var r := ClassifyLine(m, fichier, num, line).value;
      && (r.typeWarn == CodeBarresDejaPresent || r.typeWarn == SimilaireDIA107)
      && (r.typeWarn == CodeBarresDejaPresent ==> IsToken(r.titre) && IsDigits(r.codeBarres))
      && (r.typeWarn == SimilaireDIA107 ==>
            && IsToken(r.noticeLiee) && IsToken(r.similaire)
            && EqualsIgnoreCase(r.cause, CauseDIA107) && IsInfix(r.cause, line)
            && (r.titre == "" <==> m.titre(line).None?)
            && (r.titre != "" ==> IsToken(r.titre)))
  {
    if m.codeBarres(line).None? && m.titre(line).Some? {
      assert IsToken(m.titre(line).value);
    }
  }
}

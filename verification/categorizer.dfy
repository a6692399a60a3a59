/** backend/utils/categorizer.py: keyword categorisation of a transaction
    description. The engine is parameterised by an ordered table of
    (label, keywords) pairs and an income keyword list; the table of
    backend/utils/categorizer.py is one instance, the table of backend/app.py
    (module App) another. */
module Categorizer {
  import opened Values
  import opened Text

  /** Labels with their keywords, in the insertion order of the Python dict. */
  type Table = seq<(string, seq<string>)>

  datatype Kind = Income | Expense

  /** The fallback label when no keyword occurs. */
  const Otros: string := "Otros"

  /** Python's `any(kw in text for kw in keywords)`. */
  function AnyKeyword(keywords: seq<string>, text: string): (r: bool)
    ensures r <==> exists k :: 0 <= k < |keywords| && Occurs(keywords[k], text)
  {
    if keywords == [] then false
    else if Occurs(keywords[0], text) then true
    else
      var r := AnyKeyword(keywords[1..], text);
      assert r ==> exists k :: 0 <= k < |keywords| && Occurs(keywords[k], text) by {
        if r {
          var k :| 0 <= k < |keywords| - 1 && Occurs(keywords[1..][k], text);
          assert keywords[1..][k] == keywords[k + 1];
        }
      }
      assert (exists k :: 0 <= k < |keywords| && Occurs(keywords[k], text)) ==> r by {
        if exists k :: 0 <= k < |keywords| && Occurs(keywords[k], text) {
          var k :| 0 <= k < |keywords| && Occurs(keywords[k], text);
          assert k != 0;
          assert keywords[1..][k - 1] == keywords[k];
        }
      }
      r
  }

  /** Index of the first table entry with a keyword in `text`, if any. */
  function FirstMatch(table: Table, text: string): (r: Option<nat>)
    ensures r.Some? ==> r.value < |table| && AnyKeyword(table[r.value].1, text)
    ensures r.Some? ==> forall j :: 0 <= j < r.value ==> !AnyKeyword(table[j].1, text)
    ensures r.None? <==> forall j :: 0 <= j < |table| ==> !AnyKeyword(table[j].1, text)
  {
    if table == [] then None
    else if AnyKeyword(table[0].1, text) then Some(0)
    else
      match FirstMatch(table[1..], text)
      case None =>
        assert forall j :: 1 <= j < |table| ==> table[j] == table[1..][j - 1];
        None
      case Some(i) =>
        assert forall j :: 1 <= j < |table| ==> table[j] == table[1..][j - 1];
        Some(i + 1)
  }

  /** The (category, type) pair `categorize_transaction` returns, as a
      function of the lower-cased description. */
  function Categorize(table: Table, income: seq<string>, description: string): (r: (string, Kind))
    ensures r.1 == Income <==> exists k :: 0 <= k < |income| && Occurs(income[k], Lower(description))
    ensures r.0 == Otros || exists i :: 0 <= i < |table| && r.0 == table[i].0
  {
    var text := Lower(description);
    var kind := if AnyKeyword(income, text) then Income else Expense;
    match FirstMatch(table, text)
    case None => (Otros, kind)
    case Some(i) => (table[i].0, kind)
  }

  /** `categorize_transaction` as written: the type from the income test, then
      a loop over the table that keeps "Otros" until a label has a keyword in
      the description and breaks there. */
  method CategorizeTransaction(table: Table, income: seq<string>, description: string)
    returns (category: string, kind: Kind)
    ensures (category, kind) == Categorize(table, income, description)
  {
    var text := Lower(description);
    kind := if AnyKeyword(income, text) then Income else Expense;
    category := Otros;
    var i := 0;
    while i < |table|
      invariant 0 <= i <= |table|
      invariant forall j :: 0 <= j < i ==> !AnyKeyword(table[j].1, text)
      invariant category == Otros
    {
      if AnyKeyword(table[i].1, text) {
        FirstMatchAt(table, text, i);
        category := table[i].0;
        return;
      }
      i := i + 1;
    }
  }

  /** An entry with a keyword, preceded only by entries without one, is the first match. */
  lemma FirstMatchAt(table: Table, text: string, i: nat)
    requires i < |table| && AnyKeyword(table[i].1, text)
    requires forall j :: 0 <= j < i ==> !AnyKeyword(table[j].1, text)
    ensures FirstMatch(table, text) == Some(i)
  {
  }

  /** First match wins: the category is the label of entry `i` exactly when
      entry `i` has a keyword in the lower-cased description and no earlier
      entry has one. */
  lemma CategoryIsFirstMatch(table: Table, income: seq<string>, description: string, i: nat)
    requires i < |table|
    requires AnyKeyword(table[i].1, Lower(description))
    requires forall j :: 0 <= j < i ==> !AnyKeyword(table[j].1, Lower(description))
    ensures Categorize(table, income, description).0 == table[i].0
  {
    FirstMatchAt(table, Lower(description), i);
  }

  /** Every label the category can take other than "Otros" has a keyword in
      the text, and no label before it does. */
  lemma CategoryHasMatch(table: Table, income: seq<string>, description: string)
    requires forall i :: 0 <= i < |table| ==> table[i].0 != Otros
    requires Categorize(table, income, description).0 != Otros
    ensures exists i :: (0 <= i < |table| && Categorize(table, income, description).0 == table[i].0
      && AnyKeyword(table[i].1, Lower(description))
      && forall j :: 0 <= j < i ==> !AnyKeyword(table[j].1, Lower(description)))
  {
    var m := FirstMatch(table, Lower(description));
    assert m.Some?;
  }

  /** "Otros" comes out exactly when no keyword of any label occurs, provided
      no label is itself called "Otros". */
  lemma OtrosIff(table: Table, income: seq<string>, description: string)
    requires forall i :: 0 <= i < |table| ==> table[i].0 != Otros
    ensures Categorize(table, income, description).0 == Otros
      <==> forall j :: 0 <= j < |table| ==> !AnyKeyword(table[j].1, Lower(description))
  {
    var m := FirstMatch(table, Lower(description));
    if m.Some? {
      assert table[m.value].0 != Otros;
    }
  }

  /** When the entry labelled `label` searches the income keywords and no
      other entry carries that label, that category implies the income type. */
  lemma LabelImpliesIncome(table: Table, income: seq<string>, description: string, name: string)
    requires name != Otros
    requires forall i :: 0 <= i < |table| && table[i].0 == name ==> table[i].1 == income
    ensures Categorize(table, income, description).0 == name ==> Categorize(table, income, description).1 == Income
  {
    var text := Lower(description);
    var m := FirstMatch(table, text);
    if m.Some? && table[m.value].0 == name {
      assert AnyKeyword(income, text);
    }
  }

  /** The result depends only on the lower-cased description. */
  lemma CategorizeLowerInvariant(table: Table, income: seq<string>, description: string)
    ensures Categorize(table, income, description) == Categorize(table, income, Lower(description))
  {
    LowerIdempotent(description);
  }

  /** Two tables whose entries agree on whether they match give the same first match. */
  lemma FirstMatchSameVerdicts(t1: Table, t2: Table, text: string)
    requires |t1| == |t2|
    requires forall i :: 0 <= i < |t1| ==> AnyKeyword(t1[i].1, text) == AnyKeyword(t2[i].1, text)
    ensures FirstMatch(t1, text) == FirstMatch(t2, text)
  {
    var m1 := FirstMatch(t1, text);
    if m1.Some? {
      FirstMatchAt(t2, text, m1.value);
    }
  }

  /** `any` over a concatenation of keyword lists. */
  lemma AnyKeywordAppend(k1: seq<string>, k2: seq<string>, text: string)
    ensures AnyKeyword(k1 + k2, text) == (AnyKeyword(k1, text) || AnyKeyword(k2, text))
  {
    if AnyKeyword(k1 + k2, text) {
      var k :| 0 <= k < |k1 + k2| && Occurs((k1 + k2)[k], text);
      if k < |k1| {
        assert (k1 + k2)[k] == k1[k];
      } else {
        assert (k1 + k2)[k] == k2[k - |k1|];
      }
    }
    if AnyKeyword(k1, text) {
      var k :| 0 <= k < |k1| && Occurs(k1[k], text);
      assert (k1 + k2)[k] == k1[k];
    }
    if AnyKeyword(k2, text) {
      var k :| 0 <= k < |k2| && Occurs(k2[k], text);
      assert (k1 + k2)[|k1| + k] == k2[k];
    }
  }

  // ---------------------------------------------------------------------
  // The table of backend/utils/categorizer.py
  // ---------------------------------------------------------------------

  const IncomeKeywords: seq<string> :=
    ["sueldo", "salario", "pago", "ingreso", "venta",
     "bonus", "ganancia", "reembolso", "comisión"]

  /** The seven labels, in table order. */
  const Labels: seq<string> :=
    ["Alimentacion", "Transporte", "Entretenimiento", "Salud", "Servicios", "Compras", "Ingresos"]

  const AlimentacionKeywords: seq<string> :=
    ["café", "comida", "desayuno", "almuerzo", "cena", "restaurant"]
  const TransporteKeywords: seq<string> := ["taxi", "bus", "uber", "gasolina", "metro", "tren"]
  const EntretenimientoKeywords: seq<string> := ["cine", "película", "juego", "música", "bar", "pub"]
  const SaludKeywords: seq<string> := ["farmacia", "medicina", "doctor", "médico", "hospital", "gym"]
  const ServiciosKeywords: seq<string> := ["internet", "teléfono", "electricidad", "agua", "gas"]
  const ComprasKeywords: seq<string> := ["ropa", "zapatos", "tienda", "regalo", "amazon"]

  /** The category table, its last entry searching the given income list. */
  function CategoryTable(income: seq<string>): (t: Table)
    ensures |t| == |Labels|
    ensures t[0].1 == AlimentacionKeywords && t[1].1 == TransporteKeywords
    ensures t[2].1 == EntretenimientoKeywords && t[3].1 == SaludKeywords
    ensures t[4].1 == ServiciosKeywords && t[5].1 == ComprasKeywords
    ensures t[6].1 == income
  {
    [("Alimentacion", AlimentacionKeywords),
     ("Transporte", TransporteKeywords),
     ("Entretenimiento", EntretenimientoKeywords),
     ("Salud", SaludKeywords),
     ("Servicios", ServiciosKeywords),
     ("Compras", ComprasKeywords),
     ("Ingresos", income)]
  }

  /** The entries carry the seven labels in order, none of them "Otros". */
  lemma CategoryTableLabels(income: seq<string>)
    ensures forall i :: 0 <= i < |Labels| ==> CategoryTable(income)[i].0 == Labels[i]
    ensures forall i :: 0 <= i < |Labels| ==> Labels[i] != Otros
  {
  }

  /** `categorize_transaction` of backend/utils/categorizer.py: income
      exactly when an income keyword occurs in the lower-cased description,
      and "Otros" exactly when no entry of the table matches it. */
  function CategorizeUtils(description: string): (r: (string, Kind))
    ensures r.1 == Income <==> AnyKeyword(IncomeKeywords, Lower(description))
    ensures r.0 == Otros <==> FirstMatch(CategoryTable(IncomeKeywords), Lower(description)).None?
  {
    CategoryTableLabels(IncomeKeywords);
    Categorize(CategoryTable(IncomeKeywords), IncomeKeywords, description)
  }

  /** The category is one of the seven labels or "Otros". */
  lemma CategorizeUtilsLabels(description: string)
    ensures CategorizeUtils(description).0 == Otros || CategorizeUtils(description).0 in Labels
  {
    var t := CategoryTable(IncomeKeywords);
    var c := CategorizeUtils(description).0;
    CategoryTableLabels(IncomeKeywords);
    if c != Otros {
      var i :| 0 <= i < |t| && c == t[i].0;
      assert c == Labels[i];
    }
  }

  /** "Ingresos" reuses the income list, so that category implies the income type. */
  lemma IngresosImpliesIncome(description: string)
    ensures CategorizeUtils(description).0 == "Ingresos" ==> CategorizeUtils(description).1 == Income
  {
    var t := CategoryTable(IncomeKeywords);
    CategoryTableLabels(IncomeKeywords);
    forall i | 0 <= i < |t| && t[i].0 == "Ingresos"
      ensures t[i].1 == IncomeKeywords
    {
      assert i == 6;
    }
    LabelImpliesIncome(t, IncomeKeywords, description, "Ingresos");
  }

  // Absence of a whole keyword list, from one character of each keyword
  // that the text lacks.

  lemma AlimentacionAbsent(text: string)
    requires 'c' !in text && 'd' !in text && 'l' !in text && 'e' !in text
    ensures !AnyKeyword(AlimentacionKeywords, text)
  {
    forall k | 0 <= k < |AlimentacionKeywords| ensures !Occurs(AlimentacionKeywords[k], text) {
      var j := if k == 3 || k == 5 then 1 else 0;
      NotOccursChar(AlimentacionKeywords[k], text, j);
    }
  }

  lemma TransporteAbsent(text: string)
    requires 'x' !in text && 'u' !in text && 'g' !in text && 'm' !in text && 'e' !in text
    ensures !AnyKeyword(TransporteKeywords, text)
  {
    forall k | 0 <= k < |TransporteKeywords| ensures !Occurs(TransporteKeywords[k], text) {
      var j := if k == 0 || k == 5 then 2 else if k == 1 then 1 else 0;
      NotOccursChar(TransporteKeywords[k], text, j);
    }
  }

  lemma IncomeAbsent(text: string)
    requires 's' !in text && 'p' !in text && 'i' !in text && 'v' !in text
    requires 'n' !in text && 'g' !in text && 'e' !in text && 'c' !in text
    ensures !AnyKeyword(IncomeKeywords, text)
  {
    forall k | 0 <= k < |IncomeKeywords| ensures !Occurs(IncomeKeywords[k], text) {
      var j := if k == 5 then 2 else if k == 7 then 1 else 0;
      NotOccursChar(IncomeKeywords[k], text, j);
    }
  }

  // The same for texts such as "freelance", whose letters cover "cena".

  lemma AlimentacionAbsentBut(text: string)
    requires 'é' !in text && 'o' !in text && 'd' !in text && 'm' !in text && 's' !in text
    requires !Occurs("cena", text)
    ensures !AnyKeyword(AlimentacionKeywords, text)
  {
    NotOccursChar("café", text, 3);
    NotOccursChar("comida", text, 1);
    NotOccursChar("desayuno", text, 0);
    NotOccursChar("almuerzo", text, 2);
    NotOccursChar("restaurant", text, 2);
  }

  lemma TransporteAbsentInitials(text: string)
    requires 't' !in text && 'b' !in text && 'u' !in text && 'g' !in text && 'm' !in text
    ensures !AnyKeyword(TransporteKeywords, text)
  {
    forall k | 0 <= k < |TransporteKeywords| ensures !Occurs(TransporteKeywords[k], text) {
      NotOccursChar(TransporteKeywords[k], text, 0);
    }
  }

  lemma EntretenimientoAbsent(text: string)
    requires 'i' !in text && 'p' !in text && 'j' !in text && 'm' !in text && 'b' !in text
    ensures !AnyKeyword(EntretenimientoKeywords, text)
  {
    forall k | 0 <= k < |EntretenimientoKeywords| ensures !Occurs(EntretenimientoKeywords[k], text) {
      var j := if k == 0 then 1 else 0;
      NotOccursChar(EntretenimientoKeywords[k], text, j);
    }
  }

  lemma SaludAbsent(text: string)
    requires 'm' !in text && 'd' !in text && 'h' !in text && 'g' !in text
    ensures !AnyKeyword(SaludKeywords, text)
  {
    forall k | 0 <= k < |SaludKeywords| ensures !Occurs(SaludKeywords[k], text) {
      var j := if k == 0 then 3 else 0;
      NotOccursChar(SaludKeywords[k], text, j);
    }
  }

  lemma ServiciosAbsent(text: string)
    requires 'i' !in text && 't' !in text && 'g' !in text
    ensures !AnyKeyword(ServiciosKeywords, text)
  {
    forall k | 0 <= k < |ServiciosKeywords| ensures !Occurs(ServiciosKeywords[k], text) {
      var j := if k == 2 then 4 else if k == 3 then 1 else 0;
      NotOccursChar(ServiciosKeywords[k], text, j);
    }
  }

  lemma ComprasAbsent(text: string)
    requires 'o' !in text && 'z' !in text && 't' !in text && 'g' !in text && 'm' !in text
    ensures !AnyKeyword(ComprasKeywords, text)
  {
    forall k | 0 <= k < |ComprasKeywords| ensures !Occurs(ComprasKeywords[k], text) {
      var j := if k == 0 || k == 4 then 1 else if k == 3 then 2 else 0;
      NotOccursChar(ComprasKeywords[k], text, j);
    }
  }

  lemma IncomeAbsentInitials(text: string)
    requires 's' !in text && 'p' !in text && 'i' !in text && 'v' !in text && 'b' !in text
    requires 'g' !in text && 'm' !in text && 'o' !in text
    ensures !AnyKeyword(IncomeKeywords, text)
  {
    forall k | 0 <= k < |IncomeKeywords| ensures !Occurs(IncomeKeywords[k], text) {
      var j := if k == 7 then 3 else if k == 8 then 1 else 0;
      NotOccursChar(IncomeKeywords[k], text, j);
    }
  }

  /** On an already lower-case description the type is the income test. */
  lemma UtilsKind(d: string)
    requires Lower(d) == d
    ensures CategorizeUtils(d).1 == (if AnyKeyword(IncomeKeywords, d) then Income else Expense)
  {
  }

  /** On an already lower-case description the category is the label of the
      first entry with a keyword in it. */
  lemma UtilsCategory(d: string, i: nat)
    requires Lower(d) == d && i < |Labels|
    requires AnyKeyword(CategoryTable(IncomeKeywords)[i].1, d)
    requires forall j :: 0 <= j < i ==> !AnyKeyword(CategoryTable(IncomeKeywords)[j].1, d)
    ensures CategorizeUtils(d).0 == Labels[i]
  {
    CategoryTableLabels(IncomeKeywords);
    CategoryIsFirstMatch(CategoryTable(IncomeKeywords), IncomeKeywords, d, i);
  }

  /** Only a keyword of the income list decides the type, independently of
      the category: a lower-case text mentioning a payment ("pago") and a
      taxi, and no food keyword, is a transport expense labelled as income. */
  lemma TaxiPayment(d: string)
    requires Lower(d) == d && Occurs("pago", d) && Occurs("taxi", d)
    requires 'c' !in d && 'd' !in d && 'l' !in d && 'e' !in d
    ensures CategorizeUtils(d) == ("Transporte", Income)
  {
    assert AnyKeyword(IncomeKeywords, d) by {
      assert IncomeKeywords[2] == "pago";
    }
    UtilsKind(d);
    AlimentacionAbsent(d);
    assert AnyKeyword(TransporteKeywords, d) by {
      assert TransporteKeywords[0] == "taxi";
    }
    UtilsCategory(d, 1);
  }

  lemma PagoTaxi()
    ensures CategorizeUtils("pago taxi") == ("Transporte", Income)
  {
    PagoTaxiLower();
    PagoTaxiWords();
    PagoTaxiLetters();
    TaxiPayment("pago taxi");
  }

  lemma PagoTaxiLower()
    ensures Lower("pago taxi") == "pago taxi"
  {
    LowerPlain("pago taxi");
  }

  lemma PagoTaxiWords()
    ensures Occurs("pago", "pago taxi") && Occurs("taxi", "pago taxi")
  {
    assert OccursAt("pago", "pago taxi", 0);
    assert OccursAt("taxi", "pago taxi", 5);
  }

  lemma PagoTaxiLetters()
    ensures var d := "pago taxi"; 'c' !in d && 'd' !in d && 'l' !in d && 'e' !in d
  {
  }

  /** None of the characters `cs` appears in `s`. */
  predicate Lacks(s: string, cs: string) {
    forall k :: 0 <= k < |cs| ==> cs[k] !in s
  }

  /** Keywords match as substrings, not words: a lower-case text containing
      "bar" and no food, transport or income keyword is entertainment. */
  lemma BarSubstring(d: string)
    requires Lower(d) == d && Occurs("bar", d) && Lacks(d, "cdlexugmspivn")
    ensures CategorizeUtils(d) == ("Entretenimiento", Expense)
  {
    BarLetters(d);
    IncomeAbsent(d);
    UtilsKind(d);
    AlimentacionAbsent(d);
    TransporteAbsent(d);
    assert AnyKeyword(EntretenimientoKeywords, d) by {
      assert EntretenimientoKeywords[4] == "bar";
    }
    UtilsCategory(d, 2);
  }

  lemma BarLetters(d: string)
    requires Lacks(d, "cdlexugmspivn")
    ensures 'c' !in d && 'd' !in d && 'l' !in d && 'e' !in d
    ensures 'x' !in d && 'u' !in d && 'g' !in d && 'm' !in d
    ensures 's' !in d && 'p' !in d && 'i' !in d && 'v' !in d && 'n' !in d
  {
    var cs := "cdlexugmspivn";
    assert cs[0] == 'c' && cs[1] == 'd' && cs[2] == 'l' && cs[3] == 'e';
    assert cs[4] == 'x' && cs[5] == 'u' && cs[6] == 'g' && cs[7] == 'm';
    assert cs[8] == 's' && cs[9] == 'p' && cs[10] == 'i' && cs[11] == 'v' && cs[12] == 'n';
  }

  /** "barato" (cheap) is filed under entertainment. */
  lemma Barato()
    ensures CategorizeUtils("barato") == ("Entretenimiento", Expense)
  {
    var d := "barato";
    assert Lower(d) == d by { LowerPlain(d); }
    assert Lacks(d, "cdlexugmspivn");
    assert Occurs("bar", d) by { assert OccursAt("bar", d, 0); }
    BarSubstring(d);
  }

  /** A lower-case text without "cena" and without any of the letters below
      matches no keyword at all: it is an "Otros" expense. */
  lemma NoKeywordIsOtros(d: string)
    requires Lower(d) == d && !Occurs("cena", d)
    requires Lacks(d, "éodms") && Lacks(d, "tbugi") && Lacks(d, "pjhzv")
    ensures CategorizeUtils(d) == (Otros, Expense)
  {
    var t := CategoryTable(IncomeKeywords);
    NoTableKeyword(d);
    UtilsKind(d);
    CategoryTableLabels(IncomeKeywords);
    OtrosIff(t, IncomeKeywords, d);
  }

  lemma NoTableKeyword(d: string)
    requires !Occurs("cena", d)
    requires Lacks(d, "éodms") && Lacks(d, "tbugi") && Lacks(d, "pjhzv")
    ensures forall j :: 0 <= j < |Labels| ==> !AnyKeyword(CategoryTable(IncomeKeywords)[j].1, d)
  {
    LacksLetters(d);
    NoListKeyword(d);
    var t := CategoryTable(IncomeKeywords);
    NoEntryOfSeven(t, d);
  }

  lemma NoEntryOfSeven(t: Table, d: string)
    requires |t| == 7
    requires !AnyKeyword(t[0].1, d) && !AnyKeyword(t[1].1, d) && !AnyKeyword(t[2].1, d)
    requires !AnyKeyword(t[3].1, d) && !AnyKeyword(t[4].1, d) && !AnyKeyword(t[5].1, d)
    requires !AnyKeyword(t[6].1, d)
    ensures forall j :: 0 <= j < |t| ==> !AnyKeyword(t[j].1, d)
  {
  }

  lemma LacksLetters(d: string)
    requires Lacks(d, "éodms") && Lacks(d, "tbugi") && Lacks(d, "pjhzv")
    ensures 'é' !in d && 'o' !in d && 'd' !in d && 'm' !in d && 's' !in d
    ensures 't' !in d && 'b' !in d && 'u' !in d && 'g' !in d && 'i' !in d
    ensures 'p' !in d && 'j' !in d && 'h' !in d && 'z' !in d && 'v' !in d
  {
    var c1, c2, c3 := "éodms", "tbugi", "pjhzv";
    assert c1[0] == 'é' && c1[1] == 'o' && c1[2] == 'd' && c1[3] == 'm' && c1[4] == 's';
    assert c2[0] == 't' && c2[1] == 'b' && c2[2] == 'u' && c2[3] == 'g' && c2[4] == 'i';
    assert c3[0] == 'p' && c3[1] == 'j' && c3[2] == 'h' && c3[3] == 'z' && c3[4] == 'v';
  }

  lemma NoListKeyword(d: string)
    requires 'é' !in d && 'o' !in d && 'd' !in d && 'm' !in d && 's' !in d
    requires 't' !in d && 'b' !in d && 'u' !in d && 'g' !in d && 'i' !in d
    requires 'p' !in d && 'j' !in d && 'h' !in d && 'z' !in d && 'v' !in d
    requires !Occurs("cena", d)
    ensures !AnyKeyword(AlimentacionKeywords, d) && !AnyKeyword(TransporteKeywords, d)
    ensures !AnyKeyword(EntretenimientoKeywords, d) && !AnyKeyword(SaludKeywords, d)
    ensures !AnyKeyword(ServiciosKeywords, d) && !AnyKeyword(ComprasKeywords, d)
    ensures !AnyKeyword(IncomeKeywords, d)
  {
    AlimentacionAbsentBut(d);
    TransporteAbsentInitials(d);
    EntretenimientoAbsent(d);
    SaludAbsent(d);
    ServiciosAbsent(d);
    ComprasAbsent(d);
    IncomeAbsentInitials(d);
  }
}

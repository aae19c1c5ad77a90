/**
 * The rule table the application ships with (`CATEGORY_RULES`), with the facts
 * about it the rest of the model relies on and a worked categorisation.
 */
module CategoryTable {
  import opened Text
  import opened Categorizer

  const Maintenance := Rule("Обслуживание (ТО)", ["то", "обслуж", "регламент", "интервал", "пробег"])
  const Fluids := Rule("Масла и жидкости", ["масло", "жидк", "atf", "cvt", "вариатор", "антифриз", "тормозн"])
  const Filters := Rule("Фильтры", ["фильтр", "filter"])
  const Ignition := Rule("Свечи и зажигание", ["свеч", "ngk", "denso", "катуш"])
  const Lamps := Rule("Лампы и свет", ["ламп", "h11", "hb3", "wy21w", "py21w", "w5w", "t10", "t15"])
  const Electrics := Rule("Электрика и схемы", ["схем", "wiring", "manual", "электропровод", "предохран", "датчик", "honda sensing", "edlc", "ионистор"])
  const Body := Rule("Кузов/Салон", ["двер", "зеркал", "багаж", "сиден", "наклейк"])
  const Repairs := Rule("Ремонт/Инструкции", ["как", "снять", "замена", "чистк", "регулировк", "проверка", "демонтаж", "открут", "собрать"])
  const Links := Rule("Ссылки/Ресурсы", ["http://", "https://", "drive2", "youtube", "drom", "aliexpress"])

  /** `CATEGORY_RULES`, in declared order. */
  const CategoryRules: seq<Rule> := [Maintenance, Fluids, Filters, Ignition, Lamps, Electrics, Body, Repairs, Links]

  /** The shipped table names every category once and never uses the fallback
      name, so the fallback means "no rule matched" and tags never repeat. */
  lemma TableIsWellFormed()
    ensures DistinctCats(CategoryRules)
    ensures forall i :: 0 <= i < |CategoryRules| ==> CategoryRules[i].cat != Fallback
  {
  }

  const OilChangeText: string := "Замена масла в вариаторе CVT"
  const OilChangeNormalized: string := "замена масла в вариаторе cvt"

  lemma OilChangeSpacing()
    ensures Collapsed(OilChangeText) && NoEdgeSpace(OilChangeText)
  {
    CollapsedFromPlainSpaces(OilChangeText);
  }

  lemma OilChangeLowered()
    ensures LowerStr(OilChangeText) == OilChangeNormalized
  {
  }

  lemma OilChangeNormalization()
    ensures Normalize(OilChangeText) == OilChangeNormalized
    ensures Normalize(OilChangeText + " ") == OilChangeNormalized
  {
    OilChangeSpacing();
    NormalizeClean(OilChangeText);
    OilChangeLowered();
  }

  lemma OilChangeMatchingRules()
    ensures Matches(Maintenance, OilChangeNormalized)
    ensures Matches(Fluids, OilChangeNormalized)
    ensures Matches(Repairs, OilChangeNormalized)
  {
    var t := OilChangeNormalized;
    assert OccursAt(t, "то", 20) && "то" in Maintenance.keys;
    assert OccursAt(t, "cvt", 25) && "cvt" in Fluids.keys;
    assert OccursAt(t, "замена", 0) && "замена" in Repairs.keys;
  }

  /** Every character of the normalised example text. */
  const OilChangeLetters: set<char> := {'з', 'а', 'м', 'е', 'н', 'с', 'л', 'в', 'р', 'и', 'т', 'о', ' ', 'c', 'v', 't'}

  predicate WithinOilChangeLetters(t: string) {
    forall i :: 0 <= i < |t| ==> t[i] in OilChangeLetters
  }

  lemma OilChangeAlphabet()
    ensures WithinOilChangeLetters(OilChangeNormalized)
  {
  }

  /** "ионистор" is spelt with letters of the example, but "и" is never followed
      by "о" there. */
  lemma OilChangeLacksIonistor()
    ensures !Includes(OilChangeNormalized, "ионистор")
  {
    AbsentPairNotIncluded(OilChangeNormalized, "ионистор");
  }

  lemma MissesFilters(t: string)
    requires WithinOilChangeLetters(t)
    ensures !Matches(Filters, t)
  {
    OutsideAlphabetNotIncluded(t, OilChangeLetters, "фильтр", 'ф');
    OutsideAlphabetNotIncluded(t, OilChangeLetters, "filter", 'f');
  }

  lemma MissesIgnition(t: string)
    requires WithinOilChangeLetters(t)
    ensures !Matches(Ignition, t)
  {
    OutsideAlphabetNotIncluded(t, OilChangeLetters, "свеч", 'ч');
    OutsideAlphabetNotIncluded(t, OilChangeLetters, "ngk", 'g');
    OutsideAlphabetNotIncluded(t, OilChangeLetters, "denso", 'd');
    OutsideAlphabetNotIncluded(t, OilChangeLetters, "катуш", 'ш');
  }

  lemma MissesLamps(t: string)
    requires WithinOilChangeLetters(t)
    ensures !Matches(Lamps, t)
  {
    OutsideAlphabetNotIncluded(t, OilChangeLetters, "ламп", 'п');
    OutsideAlphabetNotIncluded(t, OilChangeLetters, "h11", 'h');
    OutsideAlphabetNotIncluded(t, OilChangeLetters, "hb3", 'h');
    OutsideAlphabetNotIncluded(t, OilChangeLetters, "wy21w", 'w');
    OutsideAlphabetNotIncluded(t, OilChangeLetters, "py21w", 'w');
    OutsideAlphabetNotIncluded(t, OilChangeLetters, "w5w", 'w');
    OutsideAlphabetNotIncluded(t, OilChangeLetters, "t10", '1');
    OutsideAlphabetNotIncluded(t, OilChangeLetters, "t15", '1');
  }

  lemma MissesElectrics(t: string)
    requires WithinOilChangeLetters(t) && !Includes(t, "ионистор")
    ensures !Matches(Electrics, t)
  {
    OutsideAlphabetNotIncluded(t, OilChangeLetters, "схем", 'х');
    OutsideAlphabetNotIncluded(t, OilChangeLetters, "wiring", 'w');
    OutsideAlphabetNotIncluded(t, OilChangeLetters, "manual", 'u');
    OutsideAlphabetNotIncluded(t, OilChangeLetters, "электропровод", 'э');
    OutsideAlphabetNotIncluded(t, OilChangeLetters, "предохран", 'п');
    OutsideAlphabetNotIncluded(t, OilChangeLetters, "датчик", 'д');
    OutsideAlphabetNotIncluded(t, OilChangeLetters, "honda sensing", 'h');
    OutsideAlphabetNotIncluded(t, OilChangeLetters, "edlc", 'd');
  }

  lemma MissesBody(t: string)
    requires WithinOilChangeLetters(t)
    ensures !Matches(Body, t)
  {
    OutsideAlphabetNotIncluded(t, OilChangeLetters, "двер", 'д');
    OutsideAlphabetNotIncluded(t, OilChangeLetters, "зеркал", 'к');
    OutsideAlphabetNotIncluded(t, OilChangeLetters, "багаж", 'б');
    OutsideAlphabetNotIncluded(t, OilChangeLetters, "сиден", 'д');
    OutsideAlphabetNotIncluded(t, OilChangeLetters, "наклейк", 'к');
  }

  lemma MissesLinks(t: string)
    requires WithinOilChangeLetters(t)
    ensures !Matches(Links, t)
  {
    OutsideAlphabetNotIncluded(t, OilChangeLetters, "http://", 'h');
    OutsideAlphabetNotIncluded(t, OilChangeLetters, "https://", 'h');
    OutsideAlphabetNotIncluded(t, OilChangeLetters, "drive2", 'd');
    OutsideAlphabetNotIncluded(t, OilChangeLetters, "youtube", 'y');
    OutsideAlphabetNotIncluded(t, OilChangeLetters, "drom", 'd');
    OutsideAlphabetNotIncluded(t, OilChangeLetters, "aliexpress", 'x');
  }

  /** "Замена масла в вариаторе CVT": the key "то" of the first rule occurs inside
      "вариаторе", so the first rule wins over "Масла и жидкости". */
  lemma OilChangeCategory()
    ensures CategoryOf(CategoryRules, Normalize(OilChangeText)) == Maintenance.cat
  {
    OilChangeNormalization();
    OilChangeMatchingRules();
  }

  /** The tags over the first four rules of a text that the oils rule matches and
      the filters and ignition rules miss. */
  lemma TagsHead(t: string)
    requires Matches(Fluids, t) && !Matches(Filters, t) && !Matches(Ignition, t)
    ensures TagsOf([Maintenance, Fluids, Filters, Ignition], Maintenance.cat, t) == [Fluids.cat]
  {
    var p := Maintenance.cat;
    TagsSnoc([], Maintenance, p, t);
    assert [] + [Maintenance] == [Maintenance];
    TagsSnoc([Maintenance], Fluids, p, t);
    assert [Maintenance] + [Fluids] == [Maintenance, Fluids];
    assert Fluids.cat != p;
    TagsSnoc([Maintenance, Fluids], Filters, p, t);
    assert [Maintenance, Fluids] + [Filters] == [Maintenance, Fluids, Filters];
    TagsSnoc([Maintenance, Fluids, Filters], Ignition, p, t);
    assert [Maintenance, Fluids, Filters] + [Ignition] == [Maintenance, Fluids, Filters, Ignition];
  }

  /** Extends `TagsHead` over the lamps, electrics and body rules, which miss. */
  lemma TagsMiddle(t: string)
    requires Matches(Fluids, t) && !Matches(Filters, t) && !Matches(Ignition, t)
    requires !Matches(Lamps, t) && !Matches(Electrics, t) && !Matches(Body, t)
    ensures TagsOf([Maintenance, Fluids, Filters, Ignition, Lamps, Electrics, Body], Maintenance.cat, t) == [Fluids.cat]
  {
    TagsHead(t);
    var p := Maintenance.cat;
    TagsSnoc([Maintenance, Fluids, Filters, Ignition], Lamps, p, t);
    assert [Maintenance, Fluids, Filters, Ignition] + [Lamps] == [Maintenance, Fluids, Filters, Ignition, Lamps];
    TagsSnoc([Maintenance, Fluids, Filters, Ignition, Lamps], Electrics, p, t);
    assert [Maintenance, Fluids, Filters, Ignition, Lamps] + [Electrics] == [Maintenance, Fluids, Filters, Ignition, Lamps, Electrics];
    TagsSnoc([Maintenance, Fluids, Filters, Ignition, Lamps, Electrics], Body, p, t);
    assert [Maintenance, Fluids, Filters, Ignition, Lamps, Electrics] + [Body] == [Maintenance, Fluids, Filters, Ignition, Lamps, Electrics, Body];
  }

  /** Extends `TagsMiddle` over the repairs rule, which matches, and the links
      rule, which misses. */
  lemma TagsWhole(t: string)
    requires Matches(Fluids, t) && !Matches(Filters, t) && !Matches(Ignition, t)
    requires !Matches(Lamps, t) && !Matches(Electrics, t) && !Matches(Body, t)
    requires Matches(Repairs, t) && !Matches(Links, t)
    ensures TagsOf(CategoryRules, Maintenance.cat, t) == [Fluids.cat, Repairs.cat]
  {
    TagsMiddle(t);
    var p := Maintenance.cat;
    TagsSnoc([Maintenance, Fluids, Filters, Ignition, Lamps, Electrics, Body], Repairs, p, t);
    assert [Maintenance, Fluids, Filters, Ignition, Lamps, Electrics, Body] + [Repairs] == [Maintenance, Fluids, Filters, Ignition, Lamps, Electrics, Body, Repairs];
    assert Repairs.cat != p;
    assert [Fluids.cat] + [Repairs.cat] == [Fluids.cat, Repairs.cat];
    TagsSnoc([Maintenance, Fluids, Filters, Ignition, Lamps, Electrics, Body, Repairs], Links, p, t);
    assert [Maintenance, Fluids, Filters, Ignition, Lamps, Electrics, Body, Repairs] + [Links] == CategoryRules;
  }

  /** The oils rule ("cvt", "вариатор") and the repairs rule ("замена") become
      the tags of the same message, in table order. */
  lemma OilChangeTags()
    ensures TagsOf(CategoryRules, Maintenance.cat, Normalize(OilChangeText)) == [Fluids.cat, Repairs.cat]
  {
    OilChangeNormalization();
    OilChangeMatchingRules();
    OilChangeAlphabet();
    OilChangeLacksIonistor();
    var t := OilChangeNormalized;
    MissesFilters(t);
    MissesIgnition(t);
    MissesLamps(t);
    MissesElectrics(t);
    MissesBody(t);
    MissesLinks(t);
    TagsWhole(t);
  }
}

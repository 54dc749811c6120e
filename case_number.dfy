/**
 * `scraping_by_number` (scraping.py:318-460): search the portal by docket
 * number. The city and the court are deduced from the number, the court is
 * looked up among the city's courts, and the details panel is read into a
 * case record. Browser steps are left out; the page's content is input.
 */
module CaseNumber {
  import opened Wrappers
  import opened Text
  import opened Options
  import opened Actuaciones

  /** The city option value: `code[:5]`. */
  function CityCode(code: string): (r: string)
    ensures |r| == Min(5, |code|) && r <= code
  {
    Slice(code, 0, 5)
  }

  /** The text searched for in the court option values: `code[5:9]`. */
  function EntityFilter(code: string): (r: string)
    ensures |code| <= 5 ==> r == []
    ensures 5 < |code| ==> |r| == Min(9, |code|) - 5 && OccursAt(code, r, 5)
  {
    Slice(code, 5, 9)
  }

  /**
   * A party list as shown in the details panel, "label - name - name":
   * split on every `-`, the first piece dropped, each remaining piece stripped
   * (scraping.py:422-429).
   */
  function ParseParties(text: string): (r: seq<string>)
    ensures |r| == Count(text, '-')
    ensures forall k :: 0 <= k < |r| ==> '-' !in r[k] && IsStripped(r[k])
  {
    var pieces := Split(text, '-')[1..];
    var r := seq(|pieces|, k requires 0 <= k < |pieces| => Strip(pieces[k]));
    assert forall k :: 0 <= k < |r| ==> '-' !in r[k] by {
      forall k | 0 <= k < |r| ensures '-' !in r[k] {
        StripSpec(pieces[k]);
        var i, j :| 0 <= i <= j <= |pieces[k]| && r[k] == pieces[k][i..j];
      }
    }
    assert forall k :: 0 <= k < |r| ==> IsStripped(r[k]) by {
      forall k | 0 <= k < |r| ensures IsStripped(r[k]) {
        StripSpec(pieces[k]);
      }
    }
    r
  }

  /** Text without any `-` names no party. */
  lemma NoDashNoParties(text: string)
    requires '-' !in text
    ensures ParseParties(text) == []
  {
    CountZero(text, '-');
  }

  /**
   * Round trip: a label followed by names, each name padded with whitespace
   * (`pads[k]` before and after) and joined with `-`, parses back to the names.
   */
  lemma {:induction false} PartiesRoundTrip(head: string, padded: seq<string>, pads: seq<(string, string)>, names: seq<string>)
    requires |padded| == |pads| == |names|
    requires '-' !in head
    requires forall k :: 0 <= k < |names| ==>
               names[k] != [] && '-' !in names[k] && IsStripped(names[k])
               && AllSpace(pads[k].0) && AllSpace(pads[k].1)
               && padded[k] == pads[k].0 + names[k] + pads[k].1
    ensures ParseParties(Join([head] + padded, '-')) == names
  {
    var parts := [head] + padded;
    forall k | 0 <= k < |parts| ensures '-' !in parts[k] {
      if k > 0 {
        var p := pads[k - 1];
        assert '-' !in p.0 && '-' !in p.1;
      }
    }
    SplitJoin(parts, '-');
    assert Split(Join(parts, '-'), '-')[1..] == padded;
    forall k | 0 <= k < |names| ensures Strip(padded[k]) == names[k] {
      StripPadded(pads[k].0, names[k], pads[k].1);
    }
  }

  /** The example of a plaintiff list: "Radicado - ACME SA - JOHN DOE". */
  lemma PartiesExample()
    ensures ParseParties("Radicado - ACME SA - JOHN DOE") == ["ACME SA", "JOHN DOE"]
  {
    var names := ["ACME SA", "JOHN DOE"];
    var pads := [(" ", " "), (" ", "")];
    var padded := [" ACME SA ", " JOHN DOE"];
    assert Join(padded, '-') == " ACME SA " + "-" + " JOHN DOE";
    assert Join(["Radicado "] + padded, '-') == "Radicado - ACME SA - JOHN DOE";
    assert IsStripped(names[0]) && IsStripped(names[1]);
    assert '-' !in names[0] && '-' !in names[1] && '-' !in "Radicado ";
    PartiesRoundTrip("Radicado ", padded, pads, names);
  }

  // ------------------------------------------------------ court lookup

  /** Court `i` is the first, in dict order, whose value contains `filter`. */
  predicate FirstMatchAt(courts: Dict, filter: string, i: nat)
  {
    i < |courts| && Contains(courts[i].value, filter)
    && forall j :: 0 <= j < i ==> !Contains(courts[j].value, filter)
  }

  /** No court's value contains `filter`. */
  predicate NoMatch(courts: Dict, filter: string)
  {
    forall j :: 0 <= j < |courts| ==> !Contains(courts[j].value, filter)
  }

  // ------------------------------------------------------- case record

  /** The texts of the details panel's fields (`lblJuzgadoActual`, `lblPonente`, ... `lblContenido`). */
  datatype Panel = Panel(
    despacho: string, ponente: string, tipo: string, clase: string, recurso: string,
    ubicacion: string, demandante: string, demandado: string, contenido: string)

  /** `resultado["datos"]`. */
  datatype Datos = Datos(
    despacho: string, ponente: string, tipo: string, clase: string, recurso: string,
    ubicacion: string, demandantes: seq<string>, demandados: seq<string>, contenido: string)

  /** `resultado` once filled: the docket number, the panel's fields and the procedural history. */
  datatype CaseRecord = CaseRecord(numeroRadicacion: string, datos: Datos, actuaciones: seq<Actuacion>)

  /**
   * What `scraping_by_number` returns: the empty dict `{}` when the court is
   * not found (the exception is caught and logged), the record otherwise.
   */
  datatype Resultado = Empty | Found(record: CaseRecord)

  /**
   * What the portal does once the court is found: selecting it, typing the
   * code, the slider and the consult button either fail (`ConsultFailed`,
   * the exception is caught and `{}` stays), or the details panel and the
   * history cells show.
   */
  datatype DetailsPage = ConsultFailed | Details(panel: Panel, cells: seq<string>)

  /**
   * `scraping_by_number`: select the city `code[:5]`, take the first court
   * whose value contains `code[5:9]` (for ... else: none raises "Juzgado no
   * encontrado", which is caught, leaving `{}`), then fill the record from
   * the details panel and the procedural-history cells.
   */
  method ScrapingByNumber(code: string, courtOptions: seq<SelectOption>, page: DetailsPage)
    returns (city: string, court: Option<Entry>, resultado: Resultado)
    ensures city == CityCode(code)
    ensures court.None? <==> NoMatch(GetOptions(courtOptions), EntityFilter(code))
    ensures court.Some? ==> exists i: nat :: FirstMatchAt(GetOptions(courtOptions), EntityFilter(code), i)
                                      && court.value == GetOptions(courtOptions)[i]
    ensures |code| <= 5 ==> (court.Some? <==> GetOptions(courtOptions) != [])
    ensures |code| <= 5 && court.Some? ==> court.value == GetOptions(courtOptions)[0]
    ensures resultado.Found? <==> court.Some? && page.Details?
    ensures resultado.Found? ==> resultado.record.numeroRadicacion == code
    ensures resultado.Found? ==> resultado.record.datos == Datos(
              page.panel.despacho, page.panel.ponente, page.panel.tipo, page.panel.clase,
              page.panel.recurso, page.panel.ubicacion,
              ParseParties(page.panel.demandante), ParseParties(page.panel.demandado), page.panel.contenido)
    ensures resultado.Found? ==> resultado.record.actuaciones == TransformTable(page.cells, 6)
  {
    city := CityCode(code);
    var courts := GetOptions(courtOptions);
    var filter := EntityFilter(code);
    if |code| <= 5 {
      // `code[5:9]` is empty, and the empty string is in every value
      assert filter == [];
      assert courts != [] ==> Contains(courts[0].value, filter);
    }
    var i := 0;
    while i < |courts|
      invariant i <= |courts|
      invariant forall j :: 0 <= j < i ==> !Contains(courts[j].value, filter)
    {
      if Contains(courts[i].value, filter) {
        break;
      }
      i := i + 1;
    }
    if i == |courts| {
      // the loop's `else`: "Juzgado no encontrado"
      return city, None, Empty;
    }
    assert FirstMatchAt(courts, filter, i);
    court := Some(courts[i]);
    if page.ConsultFailed? {
      return city, court, Empty;
    }
    var panel := page.panel;
    var datos := Datos(
      panel.despacho, panel.ponente, panel.tipo, panel.clase, panel.recurso, panel.ubicacion,
      ParseParties(panel.demandante), ParseParties(panel.demandado), panel.contenido);
    resultado := Found(CaseRecord(code, datos, TransformTable(page.cells, 6)));
  }
}

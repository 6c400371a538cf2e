/**
  The form's year-dependent dropdowns: when the year changes, the badge and spec
  dropdowns offer that year's entries from the year tables and select the first one,
  or nothing when the year has no entries.
*/
module Dropdowns {
  import opened Wrappers

  /** A dropdown's choices and its selected value, `None` when nothing is selected. */
  datatype Dropdown = Dropdown(choices: seq<string>, value: Option<string>)

  /** `table.get(year, [])`, offered as choices with the first one selected. */
  function YearDropdown(table: map<int, seq<string>>, year: int): (d: Dropdown)
    ensures year in table ==> d.choices == table[year]
    ensures year !in table ==> d.choices == []
    ensures d.value.Some? <==> year in table && table[year] != []
    ensures d.value.Some? ==> d.value.value == d.choices[0]
  {
    var entries := if year in table then table[year] else [];
    Dropdown(entries, if entries != [] then Some(entries[0]) else None)
  }

  /** The badge and spec dropdowns for a newly chosen year. */
  function UpdateBadgeAndSpec(year: int, yearBadge: map<int, seq<string>>, yearSpec: map<int, seq<string>>)
    : (r: (Dropdown, Dropdown))
    ensures r.0.choices == (if year in yearBadge then yearBadge[year] else [])
    ensures r.1.choices == (if year in yearSpec then yearSpec[year] else [])
    ensures r.0.value == (if r.0.choices == [] then None else Some(r.0.choices[0]))
    ensures r.1.value == (if r.1.choices == [] then None else Some(r.1.choices[0]))
  {
    (YearDropdown(yearBadge, year), YearDropdown(yearSpec, year))
  }

  /** A selected value is always one of the offered choices, and a year missing from
      the table, or listed with no entries, selects nothing rather than failing. */
  lemma SelectionIsAChoice(table: map<int, seq<string>>, year: int)
    ensures var d := YearDropdown(table, year);
            && (d.value.Some? ==> d.value.value in d.choices)
            && (d.choices == [] ==> d.value == None)
  {
  }
}

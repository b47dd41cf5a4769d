/** The selection marker: `sbsp_selectOption` flags the option whose value
    is the selected parent id by patching the rendered string in place,
    so that one cached rendering serves every selection. */
module SelectionMarker {
  import opened Php

  /** The attribute inserted after a matching `value="id"`. */
  const SelectedAttribute: string := " selected=\"selected\""

  /** The text searched for: `value="id"`. */
  function SearchString(id: int): string
  {
    "value=\"" + IntToString(id) + "\""
  }

  /** `sbsp_selectOption($optionsHtml, $id)`: an id that is not positive,
      or whose `value="id"` does not occur, leaves the string unchanged. */
  function SelectOption(optionsHtml: string, id: int): (r: string)
    ensures id <= 0 || !Contains(optionsHtml, SearchString(id)) ==> r == optionsHtml
  {
    if id > 0 then
      var searchStr := SearchString(id);
      if Contains(optionsHtml, searchStr)
      then ReplaceAll(optionsHtml, searchStr, searchStr + SelectedAttribute)
      else optionsHtml
    else optionsHtml
  }

  /** `value="id"` for a positive id starts with the only `v` it contains,
      and the inserted attribute contains none. */
  lemma {:induction false} SearchStringHeadUnique(id: int)
    requires id > 0
    ensures HeadUnique(SearchString(id))
    ensures forall k :: 0 <= k < |SelectedAttribute| ==> SelectedAttribute[k] != SearchString(id)[0]
  {
    var digits := IntToString(id);
    IntToStringShape(id);
    var s := SearchString(id);
    assert s[0] == 'v';
    forall k | 0 < k < |s| ensures s[k] != s[0] {
      if k < 7 {
        assert s[k] == "value=\""[k];
      } else if k < 7 + |digits| {
        assert s[k] == digits[k - 7];
      } else {
        assert s[k] == '"';
      }
    }
  }

  /** The `strpos` test is only a shortcut: marking is `str_replace` alone. */
  lemma {:induction false} SelectOptionIsReplaceAll(optionsHtml: string, id: int)
    requires id > 0
    ensures SelectOption(optionsHtml, id)
         == ReplaceAll(optionsHtml, SearchString(id), SearchString(id) + SelectedAttribute)
  {
    if !Contains(optionsHtml, SearchString(id)) {
      ReplaceAllWithoutOccurrence(optionsHtml, SearchString(id), SearchString(id) + SelectedAttribute);
    }
  }

  /** Nothing but the inserted attributes changes: taking them out again
      gives back the input. */
  lemma {:induction false} SelectOptionOnlyInserts(optionsHtml: string, id: int)
    requires id > 0
    ensures ReplaceAll(SelectOption(optionsHtml, id), SearchString(id) + SelectedAttribute, SearchString(id))
         == optionsHtml
  {
    SelectOptionIsReplaceAll(optionsHtml, id);
    SearchStringHeadUnique(id);
    MarkRoundTrip(optionsHtml, SearchString(id), SelectedAttribute);
  }

  /** Every `value="id"` in the result, not only the first, carries the
      selected attribute. */
  lemma {:induction false} SelectOptionMarksEveryMatch(optionsHtml: string, id: int, i: int)
    requires id > 0
    requires OccursAt(SelectOption(optionsHtml, id), SearchString(id), i)
    ensures OccursAt(SelectOption(optionsHtml, id), SelectedAttribute, i + |SearchString(id)|)
  {
    SelectOptionIsReplaceAll(optionsHtml, id);
    SearchStringHeadUnique(id);
    EveryOccurrenceMarked(optionsHtml, SearchString(id), SelectedAttribute, i);
  }

  /** When the input has a `value="id"`, the result has a selected one. */
  lemma {:induction false} SelectOptionMarksAMatch(optionsHtml: string, id: int, i: int)
    requires id > 0
    requires OccursAt(optionsHtml, SearchString(id), i)
    ensures Contains(SelectOption(optionsHtml, id), SearchString(id) + SelectedAttribute)
  {
    SelectOptionIsReplaceAll(optionsHtml, id);
    ReplaceAllInserts(optionsHtml, SearchString(id), SearchString(id) + SelectedAttribute, i);
  }

  /** Marking a string at a known `value="id"` marks that very occurrence:
      the text before and after it are marked on their own. */
  lemma {:induction false} SelectOptionSplit(before: string, after: string, id: int)
    requires id > 0
    ensures SelectOption(before + (SearchString(id) + after), id)
         == SelectOption(before, id) + (SearchString(id) + SelectedAttribute) + SelectOption(after, id)
  {
    var searchStr := SearchString(id);
    var marked := searchStr + SelectedAttribute;
    SelectOptionIsReplaceAll(before + (searchStr + after), id);
    SelectOptionIsReplaceAll(before, id);
    SelectOptionIsReplaceAll(after, id);
    SearchStringHeadUnique(id);
    HeadOfAppend(searchStr, after);
    ReplaceAllSplit(before, searchStr + after, searchStr, marked);
    ReplaceAllAtHead(searchStr + after, searchStr, marked);
  }

  /** A `value="id"` anywhere inside a piece of the string is marked. */
  lemma {:induction false} SelectOptionMarksInside(optionsHtml: string, before: string, piece: string,
                                                  after: string, id: int, j: int)
    requires id > 0 && optionsHtml == before + piece + after
    requires OccursAt(piece, SearchString(id), j)
    ensures Contains(SelectOption(optionsHtml, id), SearchString(id) + SelectedAttribute)
  {
    OccurrenceInMiddle(optionsHtml, before, piece, after, SearchString(id), j);
    SelectOptionMarksAMatch(optionsHtml, id, |before| + j);
  }
}

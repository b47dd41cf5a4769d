/** The query filter: `sbsp_getParentId` reads the selected parent from the
    request and `sbsp_applyFilter` narrows the main listing query to the
    direct children of that parent. */
module QueryFilter {
  import opened Php

  /** A value of `$_GET`: a plain string, or an array (`?x[]=...`) of which
      only the number of elements matters to `empty` and `intval`. */
  datatype QueryValue = Text(s: string) | List(size: nat)

  /** The query parameter the dropdown submits. */
  const FilterParam: string := "sbsp_subposts_filter"

  /** `empty($v)` for a request value. */
  predicate EmptyValue(v: QueryValue)
  {
    match v
    case Text(s) => EmptyString(s)
    case List(size) => size == 0
  }

  /** `intval($v)` for a request value: an array gives 0 when empty, else 1. */
  function IntvalOf(v: QueryValue): int
  {
    match v
    case Text(s) => Intval(s)
    case List(size) => if size == 0 then 0 else 1
  }

  /** `sbsp_getParentId()`, with `$_GET` passed in. The result is -1 when
      the parameter is absent or PHP-empty (which includes "0"), and
      `intval` of it otherwise. */
  function GetParentId(get: map<string, QueryValue>): (r: int)
    ensures FilterParam !in get || EmptyValue(get[FilterParam]) ==> r == -1
    ensures r > 0 ==> FilterParam in get && !EmptyValue(get[FilterParam])
    ensures r == -1 || IntMin <= r <= IntMax
  {
    if get != map[] && FilterParam in get && !EmptyValue(get[FilterParam])
    then IntvalOf(get[FilterParam])
    else -1
  }

  /** The id the dropdown submits for a post, written as its option's
      `value`, is read back as that id. */
  lemma {:induction false} GetParentIdReadsOptionValue(id: int)
    requires 0 < id <= IntMax
    ensures GetParentId(map[FilterParam := Text(IntToString(id))]) == id
  {
    PositiveIntStringNotEmpty(id);
    IntvalOfIntToString(id);
  }

  /** A submitted run of digits beyond the 64-bit range selects
      PHP_INT_MAX while it is below the double range; beyond that it is read
      as infinity and selects 0, which names no parent. */
  lemma {:induction false} LongSelectionValue(s: string)
    requires s != [] && AllDigits(s) && DigitsValue(s) > IntMax
    ensures DigitsValue(s) < DoubleOverflow ==> GetParentId(map[FilterParam := Text(s)]) == IntMax
    ensures DigitsValue(s) >= DoubleOverflow ==> GetParentId(map[FilterParam := Text(s)]) == 0
  {
    assert "0"[..0] == [];
    assert DigitsValue("0") == 0;
    IntvalOfDigits(s);
  }

  /** The "no filter" option submits -1, which never names a parent. */
  lemma {:induction false} DummyOptionSelectsNothing()
    ensures GetParentId(map[FilterParam := Text("-1")]) == -1
  {
    IntvalMinusOne();
  }

  lemma {:induction false} IntvalMinusOne()
    ensures Intval("-1") == -1
  {
    var s := "-1";
    assert !IsSpace(s[0]);
    assert TrimLeadingSpace(s) == s;
    assert s[1..] == "1";
    assert LeadingDigits("1") == "1" by {
      assert LeadingDigits("1"[1..]) == [];
    }
    assert DigitsValue("1") == 1 by {
      assert "1"[..0] == [];
    }
  }

  /** The four-way condition under which `sbsp_applyFilter` sets
      `post_parent__in`. */
  predicate FilterApplies(isMainQuery: bool, isSingle: bool, hierarchical: bool, parentId: int)
  {
    isMainQuery && !isSingle && hierarchical && parentId > 0
  }

  /** The listing query (`WP_Query`) as far as `sbsp_applyFilter` sees it. */
  class Query {
    const isMainQuery: bool
    const isSingle: bool
    /** `query_vars['post_type']`. */
    const postType: string
    /** `query_vars['post_parent__in']`. */
    var postParentIn: seq<int>

    constructor (isMainQuery: bool, isSingle: bool, postType: string, postParentIn: seq<int>)
      ensures this.isMainQuery == isMainQuery && this.isSingle == isSingle
      ensures this.postType == postType && this.postParentIn == postParentIn
    {
      this.isMainQuery := isMainQuery;
      this.isSingle := isSingle;
      this.postType := postType;
      this.postParentIn := postParentIn;
    }

    /** `sbsp_applyFilter($query)`, with `$_GET` and
        `is_post_type_hierarchical` passed in: when the four-way condition
        holds the query is restricted to the direct children of the one
        selected parent; otherwise it is left as it was. */
    method ApplyFilter(get: map<string, QueryValue>, isHierarchical: string -> bool)
      modifies this
      ensures FilterApplies(isMainQuery, isSingle, isHierarchical(postType), GetParentId(get)) ==>
                postParentIn == [GetParentId(get)]
      ensures !FilterApplies(isMainQuery, isSingle, isHierarchical(postType), GetParentId(get)) ==>
                postParentIn == old(postParentIn)
    {
      if isMainQuery && !isSingle && isHierarchical(postType) {
        var parentId := GetParentId(get);
        if parentId > 0 {
          postParentIn := [parentId];
        }
      }
    }
  }

  /** Without the parameter, or with the "no filter" value, no query is
      ever narrowed. */
  lemma {:induction false} NoFilterWithoutSelection(get: map<string, QueryValue>, isMainQuery: bool, isSingle: bool, hierarchical: bool)
    requires FilterParam !in get || get[FilterParam] == Text("-1") || EmptyValue(get[FilterParam])
    ensures !FilterApplies(isMainQuery, isSingle, hierarchical, GetParentId(get))
  {
    IntvalMinusOne();
  }
}

/** `sbsp_createParentDropDown`: reuse the cached rendering or rebuild and
    store it, then label the dummy option and mark the selected parent. */
module Dropdown {
  import opened Php
  import opened TreeBuilder
  import opened OptionRenderer
  import opened SelectionMarker
  import opened QueryFilter
  import opened CacheManager

  /** Placeholder for the translated label of the "no filter" option. */
  const DummyOption: string := "###DUMMY_OPTION###"

  /** The opening tag of the control, named after the query variable. */
  const SelectOpen: string := "<select name=\"sbsp_subposts_filter\">"

  /** The "no filter" option, value -1, with the placeholder label. */
  const DummyOptionTag: string := "<option value=\"-1\">" + DummyOption + "</option>"

  const SelectClose: string := "</select>"

  /** The `<select>` control around the rendered options, or nothing when no
      post has children. */
  function SelectControl(finalPosts: seq<Item>): string
  {
    if finalPosts == [] then "" else SelectOpen + DummyOptionTag + Options(finalPosts) + SelectClose
  }

  /** `empty($output)` for what `get_transient` returned: no entry (`false`),
      "" and "0" all count as a miss. */
  predicate IsMiss(cached: Option<string>)
  {
    match cached
    case None => true
    case Some(s) => EmptyString(s)
  }

  /** `$output` as a string: `false` concatenates as "". */
  function CachedText(cached: Option<string>): string
  {
    match cached
    case None => ""
    case Some(s) => s
  }

  /** What a cache miss stores: the select control is appended to whatever
      `$output` held, for the tree built from the top-level posts. */
  function Rebuilt(cached: Option<string>, topLevelPosts: seq<Post>): string
  {
    CachedText(cached) + SelectControl(if |topLevelPosts| > 0 then Processed(topLevelPosts, 0) else [])
  }

  /** The rebuild branch of `sbsp_createParentDropDown`: build the tree from
      the top-level posts and append the control to what `$output` held. */
  method RenderControl(output0: string, topLevelPosts: seq<Post>) returns (output: string)
    ensures output == output0 + SelectControl(if |topLevelPosts| > 0 then Processed(topLevelPosts, 0) else [])
    ensures output[..|output0|] == output0
    ensures output == output0 <==> forall k :: 0 <= k < |topLevelPosts| ==> |topLevelPosts[k].childPosts| == 0
  {
    output := output0;
    var finalPosts: seq<Item> := [];
    if |topLevelPosts| > 0 {
      finalPosts := ProcessPosts(topLevelPosts, finalPosts, 0);
    }
    assert finalPosts == (if |topLevelPosts| > 0 then Processed(topLevelPosts, 0) else []);
    ProcessedEmpty(topLevelPosts, 0);
    if finalPosts != [] {
      var options := CreateOptions(finalPosts);
      output := output + SelectOpen;
      output := output + DummyOptionTag;
      ConcatAssoc(output0, SelectOpen, DummyOptionTag);
      output := output + options;
      ConcatAssoc(output0, SelectOpen + DummyOptionTag, options);
      output := output + SelectClose;
      ConcatAssoc(output0, SelectOpen + DummyOptionTag + options, SelectClose);
      assert |output| > |output0|;
    }
  }

  /** `sbsp_createParentDropDown()`. The screen's post type, its top-level
      posts (`get_posts` with `post_parent` 0, each carrying its
      descendants), `$_GET`, `is_post_type_hierarchical` and the translated
      label are passed in; what is echoed is returned. */
  method CreateParentDropDown(sbsp: KeyState, store: TransientStore, screenPostType: string,
                              isHierarchical: string -> bool, topLevelPosts: seq<Post>,
                              get: map<string, QueryValue>, labelText: string) returns (echoed: string)
    requires sbsp.Valid()
    modifies sbsp, store
    ensures sbsp.Valid()
    ensures !isHierarchical(screenPostType) ==> echoed == "" && unchanged(sbsp) && unchanged(store)
    ensures isHierarchical(screenPostType) ==>
              sbsp.keyCreated && sbsp.cacheKey == KeyAfter(old(sbsp.keyCreated), old(sbsp.cacheKey), screenPostType)
    ensures isHierarchical(screenPostType) ==>
              var cached := Lookup(old(store.entries), sbsp.cacheKey);
              var html := if IsMiss(cached) then Rebuilt(cached, topLevelPosts) else cached.value;
              && store.entries == (if IsMiss(cached) then old(store.entries)[sbsp.cacheKey := html] else old(store.entries))
              && echoed == SelectOption(ReplaceAll(html, DummyOption, labelText), GetParentId(get))
  {
    echoed := "";
    if isHierarchical(screenPostType) {
      var key := sbsp.GetCacheKey(screenPostType);
      var cached := store.Get(key);
      var parentId := GetParentId(get);
      var output := CachedText(cached);
      if IsMiss(cached) {
        output := RenderControl(output, topLevelPosts);
        key := sbsp.GetCacheKey(screenPostType);
        store.Set(key, output);
      }
      output := ReplaceAll(output, DummyOption, labelText);
      echoed := SelectOption(output, parentId);
    }
  }

  /** The entry stored when no post has children is "", which the next
      request again reads as a miss: the stored value short-circuits the
      rebuild exactly when some top-level post has a child. */
  lemma {:induction false} StoredEntryIsHitIffSomeParent(cached: Option<string>, topLevelPosts: seq<Post>)
    requires CachedText(cached) == ""
    ensures IsMiss(Some(Rebuilt(cached, topLevelPosts)))
        <==> forall k :: 0 <= k < |topLevelPosts| ==> |topLevelPosts[k].childPosts| == 0
  {
    ProcessedEmpty(topLevelPosts, 0);
  }

  /** On a rebuild from an empty entry, the options inside the control are one
      tag per post that has a child, in pre-order of the built tree. */
  lemma {:induction false} RebuiltOptions(cached: Option<string>, topLevelPosts: seq<Post>)
    requires CachedText(cached) == "" && Processed(topLevelPosts, 0) != []
    ensures Rebuilt(cached, topLevelPosts)
         == SelectOpen + DummyOptionTag + Tags(PreOrder(Processed(topLevelPosts, 0))) + SelectClose
    ensures |PreOrder(Processed(topLevelPosts, 0))| == ParentCount(topLevelPosts)
  {
    OptionsArePreOrderTags(Processed(topLevelPosts, 0));
    OneOptionPerParent(topLevelPosts, 0);
  }

  /** A record's tag, split at its `value` attribute: the `data-depth`
      attribute before it and the rest of the tag after it. The attribute is
      exactly what the selection marker searches for. */
  lemma {:induction false} OptionTagAtValue(opt: Item)
    ensures OptionTag(opt) == DepthAttribute(opt.depth) + (SearchString(opt.id) + TagRest(opt))
  {
    assert ValueAttribute(opt.id) == SearchString(opt.id);
  }

  lemma Regroup<T>(c: seq<T>, open: seq<T>, dummy: seq<T>, earlier: seq<T>, depthAttr: seq<T>,
                   value: seq<T>, rest: seq<T>, later: seq<T>, close: seq<T>)
    ensures c + (((open + dummy) + ((earlier + (depthAttr + (value + rest))) + later)) + close)
         == (((c + open) + dummy) + earlier) + depthAttr + (value + ((rest + later) + close))
  {
  }

  /** Selecting any record of a rebuilt control, by its positive id, marks
      that record's own tag: the control splits at the record's `value`
      attribute, and the marked string is the marked text before it, the
      attribute with ` selected="selected"`, and the marked text after it. */
  lemma {:induction false} RenderedRecordIsMarked(cached: Option<string>, topLevelPosts: seq<Post>, k: int)
    requires 0 <= k < |PreOrder(Processed(topLevelPosts, 0))|
    requires PreOrder(Processed(topLevelPosts, 0))[k].id > 0
    ensures var visited := PreOrder(Processed(topLevelPosts, 0));
            var opt := visited[k];
            var before := CachedText(cached) + SelectOpen + DummyOptionTag + Tags(visited[..k])
                          + DepthAttribute(opt.depth);
            var after := TagRest(opt) + Tags(visited[k + 1..]) + SelectClose;
            && Rebuilt(cached, topLevelPosts) == before + (SearchString(opt.id) + after)
            && SelectOption(Rebuilt(cached, topLevelPosts), opt.id)
               == SelectOption(before, opt.id) + (SearchString(opt.id) + SelectedAttribute)
                  + SelectOption(after, opt.id)
  {
    var finalPosts := Processed(topLevelPosts, 0);
    var visited := PreOrder(finalPosts);
    var opt := visited[k];
    var before := CachedText(cached) + SelectOpen + DummyOptionTag + Tags(visited[..k]) + DepthAttribute(opt.depth);
    var after := TagRest(opt) + Tags(visited[k + 1..]) + SelectClose;
    assert finalPosts != [];
    OptionsArePreOrderTags(finalPosts);
    TagsSplit(visited, k);
    OptionTagAtValue(opt);
    Regroup(CachedText(cached), SelectOpen, DummyOptionTag, Tags(visited[..k]), DepthAttribute(opt.depth),
            SearchString(opt.id), TagRest(opt), Tags(visited[k + 1..]), SelectClose);
    SelectOptionSplit(before, after, opt.id);
  }
}

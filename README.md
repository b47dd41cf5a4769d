# Subpages filter plugin: a Dafny model

The plugin adds a dropdown to the admin listing of a hierarchical post
type, such as Pages. Choosing a parent in the dropdown narrows the listing
to that parent's direct children. The model covers the plugin's whole
logic, found in `sb_subpages.php`:

- **TreeBuilder**: `sbsp_processPosts` walks the post hierarchy. Every post
  with at least one child becomes a record with its depth, its child count
  and its kept children. Leaf posts are dropped. This is a method with a
  loop, proved against the function `Processed`.
- **OptionRenderer**: `sbsp_createOptions` flattens the records into
  `<option>` tags with an indented label. This is a method with a loop,
  proved against the function `Options`. `Options` is then shown equal to
  an independent pre-order description (`Tags(PreOrder(..))`).
- **SelectionMarker**: `sbsp_selectOption` marks the selected parent by
  patching the rendered string with `str_replace`.
- **QueryFilter**: `sbsp_getParentId` reads the selected parent from
  `$_GET`. `Query.ApplyFilter` models `sbsp_applyFilter`, which restricts the
  main listing query to that parent's children.
- **CacheManager**: the global `$sbsp` (a memoised cache key), the host's
  transient store, and `sbsp_removeCacheKey`.
- **Dropdown**: `sbsp_createParentDropDown`. It reuses the cached
  rendering or rebuilds and stores it. Then it labels the "no filter" option
  and marks the selection.
- **Php**: the PHP built-ins these rely on, with their 64-bit PHP 7/8
  semantics:
  - int-to-string conversion;
  - `intval` on strings: a digit run beyond the 64-bit range saturates,
    and one beyond the range of a double is read as infinity and gives 0;
  - `empty`, where "" and "0" are both empty;
  - `strpos(..) !== FALSE`;
  - `str_replace`, which replaces every occurrence, left to right, without
    overlap;
  - `str_repeat`.

The host services are passed in as parameters:

- `get_current_screen()->post_type` is the parameter `screenPostType`.
- `is_post_type_hierarchical` is the function parameter `isHierarchical`.
- `get_posts` becomes the `Post` tree, in which every post carries the
  children `get_posts` returns for it.
- `$_GET` is a map.
- The translated label from `__()` is the parameter `labelText`.

What would be echoed is returned instead.

Three behaviours of the code are worth stating, because they are easy to
misread:

- Every `value="id"` in the string is marked, not only the first. The
  docblock of `sbsp_selectOption` (sb_subpages.php:188) speaks of "the
  correct option", but the `str_replace` at sb_subpages.php:201 replaces all
  occurrences. See `SelectionMarker.SelectOptionMarksEveryMatch`.
- `childCount` counts every fetched child (sb_subpages.php:231), while
  `children` holds only the kept ones (sb_subpages.php:236). So
  `childCount == |children|` fails for a post whose children are all leaves.
  See `TreeBuilder.ParentOfLeavesOnly`.
- When no post has a child, no `.=` runs (sb_subpages.php:112-117). What is
  stored is then the miss value itself: `false` in the plugin, "" in the
  model, which reads `false` as "". Either way the next request's `empty()`
  check (sb_subpages.php:99) sees a miss and rebuilds. So the entry that
  the comment at sb_subpages.php:119-120 sets "even if there are none"
  saves a rebuild only when some post has a child. See
  `Dropdown.StoredEntryIsHitIffSomeParent`.

## Model

| member | source | states |
|---|---|---|
| TreeBuilder.ProcessPosts | sb_subpages.php:218-242 | The result is the caller's array followed by one record for each post that has a child, in input order. That record is built at the current depth, with its counted children processed one level deeper. |
| TreeBuilder.ProcessedIsFilterThenConvert | sb_subpages.php:219-241 | The built records are exactly the posts that have a child, filtered first and then converted one by one: the same length, and record k is built from the k-th kept post. |
| TreeBuilder.WithChildrenMembership | sb_subpages.php:231-238 | A post is kept if and only if it is among the input posts and has at least one child. |
| TreeBuilder.WithChildrenIsSubsequence | sb_subpages.php:219-238 | The kept posts are a subsequence of the input: none is reordered. |
| TreeBuilder.ProcessedLength | sb_subpages.php:219-241 | A level never has more records than it has posts. |
| TreeBuilder.ProcessedWellFormed | sb_subpages.php:227-237 | At every level, every record has childCount > 0 and carries its level's depth, starting from the given depth and going up by one per level. It never keeps more children than it counted. |
| TreeBuilder.ProcessedEmpty | sb_subpages.php:235-241 | Nothing is built if and only if no input post has a child. |
| TreeBuilder.ParentOfLeavesOnly | sb_subpages.php:231-237 | A post that has children, all of them leaves, is kept as one record whose childCount is its number of children and whose children are empty. |
| OptionRenderer.CreateOptions | sb_subpages.php:174-185 | The returned string is `Options(options)`: for each record in order, its tag, then the options of its children when childCount > 0. |
| OptionRenderer.EmitOption | sb_subpages.php:178-181 | One loop pass extends the rendering of the first i records to the rendering of the first i+1. |
| OptionRenderer.OptionsArePreOrderTags | sb_subpages.php:174-185 | The rendering is one tag per record in a pre-order traversal, parent before descendants, with "" for no records. |
| OptionRenderer.PreOrderAppend | sb_subpages.php:177-182 | The traversal of two concatenated lists is the traversal of the first followed by that of the second. |
| OptionRenderer.TagsAppend | sb_subpages.php:177-179 | The tags of two concatenated lists are the tags of the first followed by those of the second. |
| OptionRenderer.TagsSplit | sb_subpages.php:177-179 | The tag of record k sits between the tags of the records before it and those after it. |
| OptionRenderer.VisitTags | sb_subpages.php:179-181 | Visiting one record emits its tag, then its children's tags when it counted children. |
| OptionRenderer.OptionTagDepth | sb_subpages.php:179 | Each tag starts with `<option data-depth="`, followed by the decimal digits of the depth and a closing quote. Those digits read back as the depth. |
| OptionRenderer.IndentShape | sb_subpages.php:178 | The label prefix is "" at depth 0. Otherwise it is `depth` copies of `&nbsp;&nbsp;&nbsp;` followed by one space. |
| OptionRenderer.OneOptionPerParent | sb_subpages.php:174-185 | Rendering a built tree visits exactly as many records as there are posts, at any depth, that have a child. |
| OptionRenderer.RenderedRecordsAreParents | sb_subpages.php:181 | Every record rendered from a well-formed tree counted at least one child and sits at the starting depth or deeper. |
| SelectionMarker.SelectOption | sb_subpages.php:196-204 | An id <= 0, or one whose `value="id"` does not occur, leaves the string unchanged. |
| SelectionMarker.SelectOptionIsReplaceAll | sb_subpages.php:199-201 | For a positive id the `strpos` test is only a shortcut: the result is `str_replace` alone. |
| SelectionMarker.SelectOptionOnlyInserts | sb_subpages.php:201 | Removing the inserted ` selected="selected"` attributes gives back the input: nothing else changes. |
| SelectionMarker.SelectOptionMarksEveryMatch | sb_subpages.php:201 | Every `value="id"` in the result is followed by ` selected="selected"`. |
| SelectionMarker.SelectOptionMarksAMatch | sb_subpages.php:198-201 | If the input contains `value="id"`, the result contains a selected one. |
| SelectionMarker.SelectOptionMarksInside | sb_subpages.php:198-201 | A `value="id"` inside any piece of the string is marked in the result. |
| SelectionMarker.SelectOptionSplit | sb_subpages.php:198-201 | Marking a string at a known `value="id"` inserts ` selected="selected"` right after that occurrence, and marks the text before it and after it independently. |
| SelectionMarker.SearchStringHeadUnique | sb_subpages.php:198 | `value="id"` repeats its first character nowhere, and the inserted attribute does not contain it. |
| QueryFilter.GetParentId | sb_subpages.php:78-82 | The result is -1 when the parameter is absent or PHP-empty. A positive result comes from a present, non-empty parameter. Every result is -1 or inside the 64-bit range. |
| QueryFilter.GetParentIdReadsOptionValue | sb_subpages.php:79 | A positive id, submitted as its option's value, is read back as that id. |
| QueryFilter.LongSelectionValue | sb_subpages.php:79 | A submitted digit run above PHP_INT_MAX selects PHP_INT_MAX while it is below the double range. From 2^1024 - 2^970 on it is read as infinity and selects 0. |
| QueryFilter.DummyOptionSelectsNothing | sb_subpages.php:79 | The "no filter" value -1 reads back as -1. |
| QueryFilter.NoFilterWithoutSelection | sb_subpages.php:64-67 | With the parameter absent, empty or -1, no query is narrowed. |
| QueryFilter.Query.ApplyFilter | sb_subpages.php:63-69 | `post_parent__in` becomes exactly [parentId] when all four conditions hold: the main query, not a single post, a hierarchical type and parentId > 0. Otherwise it is unchanged. |
| CacheManager.KeyState.constructor | sb_subpages.php:37-40 | The key starts as `sbsp_select`, with the flag unset. |
| CacheManager.KeyState.GetCacheKey | sb_subpages.php:141-151 | The first call appends `_` and the post type and sets the flag. Every later call returns the key unchanged. |
| CacheManager.KeyIsComputedOnce | sb_subpages.php:144-150 | Two calls return the same key, built from the first call's post type. |
| CacheManager.StoreRoundTrip | sb_subpages.php:96-123 | A stored value is read back under its key, other keys are unaffected, and nothing is read after a delete. |
| CacheManager.RemoveCacheKey | sb_subpages.php:159-164 | The key is always computed and memoised. The entry is deleted only for a hierarchical post type, and nothing else in the store changes. |
| Dropdown.RenderControl | sb_subpages.php:100-117 | The previous output is kept as a prefix. It grows if and only if some top-level post has a child, and then by the select opening tag, the dummy option, the rendered options and the closing tag. |
| Dropdown.CreateParentDropDown | sb_subpages.php:91-132 | A non-hierarchical type outputs nothing and changes nothing. Otherwise the key is memoised, and on a miss (`empty()` of the cached value) the rebuilt control is stored under the key. The output is the cached or rebuilt string with the dummy label replaced and the selected parent marked. |
| Dropdown.StoredEntryIsHitIffSomeParent | sb_subpages.php:99-123 | The entry stored after a miss counts as a hit on the next request if and only if some top-level post has a child. |
| Dropdown.RebuiltOptions | sb_subpages.php:112-117 | A rebuilt control holds one tag per post with a child, in pre-order of the built tree. |
| Dropdown.OptionTagAtValue | sb_subpages.php:179 | A record's tag is its `data-depth` attribute, then exactly the `value="id"` the selection marker searches for, then the rest of the tag. |
| Dropdown.RenderedRecordIsMarked | sb_subpages.php:99-130 | For every record k of a rebuilt control with a positive id, the control splits at record k's own `value` attribute: before it come the earlier tags and record k's `data-depth` attribute. Marking that id marks this very attribute, and the text on either side is marked on its own. |
| Php.IntvalOfIntToString | sb_subpages.php:79 | `intval` of the decimal form of any 64-bit int is that int. |
| Php.ToLong | sb_subpages.php:79 | A digit run's value inside the 64-bit range is kept, a finite one outside saturates at the nearer bound, and one that overflows a double gives 0. |
| Php.ReplaceAllSplit | sb_subpages.php:201 | When the second part starts with a `pat` whose first character occurs nowhere else in it, `str_replace` of the whole is `str_replace` of each part. |
| Php.ReplaceAllWithoutOccurrence | sb_subpages.php:201 | `str_replace` without an occurrence returns its subject. |
| Php.MarkRoundTrip | sb_subpages.php:201 | Replacing `pat` by `pat + mark` and then `pat + mark` by `pat` gives back the subject, when `pat` repeats its first character nowhere. |
| Php.EveryOccurrenceMarked | sb_subpages.php:201 | After replacing `pat` by `pat + mark`, every occurrence of `pat` is followed by `mark`. |

## Left out

- The hook registration (`add_action`) and the `ABSPATH` / `is_admin()` guard are left out: they only decide whether the functions run.
- `get_current_screen`, `is_post_type_hierarchical`, `get_posts`, `$_GET` and the translated label from `__()` are host services. They are passed in as parameters or, for `get_posts`, as the `Post` tree.
- `echo` is not modelled: `CreateParentDropDown` returns the string instead.
- The transient's four-week expiry is left out, since the model has no clock. The store is a plain map.
- The debugging cookie set in `sbsp_removeCacheKey` (`setcookie`) is left out; only the key computation it triggers is kept.
- `Query.ApplyFilter`: only `post_parent__in` is modelled, since it is the only query variable the function sets. The other query variables are left out.
- `Php.Intval`: the exponent and fraction forms of numeric strings (such as "1e3" or "1.9") are not modelled. Only leading whitespace, the sign, the digit run and its conversion by `Php.ToLong` are. `Php.ToLong` assumes correctly rounded decimal-to-double conversion; the rounding of finite doubles never matters, since every finite value outside the 64-bit range saturates.
- `Dropdown.CreateParentDropDown` stores "" where the plugin stores `false` (no parent found and no cached entry). Both read back as a miss.
- Cycles in the post hierarchy cannot arise in the model, since `Post` is an inductive tree. The unbounded recursion that a cyclic hierarchy would cause in the plugin is left out.
- Concurrent access to the transient store is left out.

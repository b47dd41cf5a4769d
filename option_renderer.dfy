/** The option renderer: `sbsp_createOptions` flattens the nested records
    into `<option>` tags, indenting each title by its depth. */
module OptionRenderer {
  import opened Php
  import opened TreeBuilder

  /** One level of indentation in an option label. */
  const IndentUnit: string := "&nbsp;&nbsp;&nbsp;"

  /** The label prefix of a record at `depth`. */
  function Indent(depth: nat): string
  {
    if depth > 0 then Repeat(IndentUnit, depth) + " " else ""
  }

  /** The start of an option tag, up to its `data-depth` attribute. */
  const DepthPrefix: string := "<option data-depth=\""

  /** What follows the `value` attribute in a record's tag. */
  function TagRest(opt: Item): string
  {
    ">" + Indent(opt.depth) + opt.title + "</option>"
  }

  /** `<option data-depth="depth" `. */
  function DepthAttribute(depth: nat): string
  {
    DepthPrefix + NatToString(depth) + "\" "
  }

  /** `value="id"`. */
  function ValueAttribute(id: int): string
  {
    "value=\"" + IntToString(id) + "\""
  }

  /** The `<option>` tag emitted for one record. */
  function OptionTag(opt: Item): string
  {
    DepthAttribute(opt.depth) + ValueAttribute(opt.id) + ">" + Indent(opt.depth) + opt.title + "</option>"
  }

  /** The `data-depth` attribute of a record's tag holds the decimal form of
      its depth, between quotes. */
  lemma {:induction false} OptionTagDepth(opt: Item)
    ensures var d := NatToString(opt.depth);
            && OptionTag(opt)[..|DepthPrefix|] == DepthPrefix
            && OptionTag(opt)[|DepthPrefix|..|DepthPrefix| + |d|] == d
            && OptionTag(opt)[|DepthPrefix| + |d|] == '"'
            && AllDigits(d) && DigitsValue(d) == opt.depth
  {
    var d := NatToString(opt.depth);
    var rest := ValueAttribute(opt.id) + ">" + Indent(opt.depth) + opt.title + "</option>";
    assert OptionTag(opt) == DepthPrefix + d + ("\" " + rest);
    ConcatParts(OptionTag(opt), DepthPrefix, d, "\" " + rest);
    NatToStringDigits(opt.depth);
    DigitsValueOfNatToString(opt.depth);
  }

  /** What `sbsp_createOptions` returns: for each record in turn its tag,
      followed by the options of its children when it counted any. */
  function Options(options: seq<Item>): string
  {
    if options == [] then ""
    else
      var opt := options[|options| - 1];
      Options(options[..|options| - 1]) + OptionTag(opt)
        + if opt.childCount > 0 then Options(opt.children) else ""
  }

  lemma {:induction false} OptionsSnoc(init: seq<Item>, opt: Item)
    ensures Options(init + [opt])
         == Options(init) + OptionTag(opt) + if opt.childCount > 0 then Options(opt.children) else ""
  {
    assert (init + [opt])[..|init|] == init;
  }

  lemma {:induction false} OptionsPrefixStep(options: seq<Item>, i: nat)
    requires i < |options|
    ensures Options(options[..i + 1])
         == Options(options[..i]) + OptionTag(options[i])
            + if options[i].childCount > 0 then Options(options[i].children) else ""
  {
    assert options[..i + 1] == options[..i] + [options[i]];
    OptionsSnoc(options[..i], options[i]);
  }

  /** `sbsp_createOptions($options)`. */
  method CreateOptions(options: seq<Item>) returns (optStr: string)
    ensures optStr == Options(options)
  {
    optStr := "";
    var i := 0;
    while i < |options|
      invariant 0 <= i <= |options|
      invariant optStr == Options(options[..i])
    {
      var opt := options[i];
      var sub := "";
      if opt.childCount > 0 {
        sub := CreateOptions(opt.children);
      }
      optStr := EmitOption(optStr, options, i, sub);
      i := i + 1;
    }
    assert options[..i] == options;
  }

  /** One pass of the renderer's loop: the tag of `options[i]` and then the
      options of its children are appended to what was rendered before it. */
  method EmitOption(optStr: string, options: seq<Item>, i: nat, sub: string) returns (r: string)
    requires i < |options| && optStr == Options(options[..i])
    requires sub == if options[i].childCount > 0 then Options(options[i].children) else ""
    ensures r == Options(options[..i + 1])
  {
    OptionsPrefixStep(options, i);
    r := optStr + OptionTag(options[i]) + sub;
  }

  // ---------------------------------------------------------------------
  // An independent description: the records in pre-order, one tag each

  /** The records the renderer visits, parent before its descendants and
      siblings in sequence order; children are visited only when the record
      counted some, as the renderer's guard does. */
  function PreOrder(options: seq<Item>): seq<Item>
  {
    if options == [] then []
    else
      var opt := options[0];
      [opt] + (if opt.childCount > 0 then PreOrder(opt.children) else []) + PreOrder(options[1..])
  }

  /** The tags of `items`, one after the other. */
  function Tags(items: seq<Item>): string
  {
    if items == [] then "" else OptionTag(items[0]) + Tags(items[1..])
  }

  lemma {:induction false} TagsAppend(a: seq<Item>, b: seq<Item>)
    ensures Tags(a + b) == Tags(a) + Tags(b)
  {
    if a != [] {
      assert (a + b)[0] == a[0];
      assert (a + b)[1..] == a[1..] + b;
      TagsAppend(a[1..], b);
      ConcatAssoc(OptionTag(a[0]), Tags(a[1..]), Tags(b));
    } else {
      assert a + b == b;
    }
  }

  /** The tags of a sequence, split around the one at position `k`. */
  lemma {:induction false} TagsSplit(items: seq<Item>, k: int)
    requires 0 <= k < |items|
    ensures Tags(items) == Tags(items[..k]) + OptionTag(items[k]) + Tags(items[k + 1..])
  {
    assert items == items[..k] + items[k..];
    TagsAppend(items[..k], items[k..]);
    assert items[k..][1..] == items[k + 1..];
  }

  /** Unfolding the traversal at a known first record. */
  lemma {:induction false} PreOrderCons(opt: Item, rest: seq<Item>)
    ensures PreOrder([opt] + rest)
         == [opt] + (if opt.childCount > 0 then PreOrder(opt.children) else []) + PreOrder(rest)
  {
    assert ([opt] + rest)[0] == opt;
    assert ([opt] + rest)[1..] == rest;
  }

  lemma {:induction false} PreOrderAppend(a: seq<Item>, b: seq<Item>)
    ensures PreOrder(a + b) == PreOrder(a) + PreOrder(b)
  {
    if a != [] {
      var opt, tail := a[0], a[1..];
      var kids := if opt.childCount > 0 then PreOrder(opt.children) else [];
      assert a == [opt] + tail;
      assert a + b == [opt] + (tail + b);
      PreOrderCons(opt, tail);
      PreOrderCons(opt, tail + b);
      PreOrderAppend(tail, b);
      ConcatAssoc([opt] + kids, PreOrder(tail), PreOrder(b));
    } else {
      assert a + b == b;
    }
  }

  /** The rendered string is exactly one tag per visited record, in
      pre-order; in particular an empty input gives "". */
  lemma {:induction false} OptionsArePreOrderTags(options: seq<Item>)
    ensures Options(options) == Tags(PreOrder(options))
  {
    if options != [] {
      var init, opt := options[..|options| - 1], options[|options| - 1];
      var sub := if opt.childCount > 0 then Options(opt.children) else "";
      assert options == init + [opt];
      OptionsSnoc(init, opt);
      OptionsArePreOrderTags(init);
      if opt.childCount > 0 {
        OptionsArePreOrderTags(opt.children);
      }
      VisitTags(opt);
      assert Tags(PreOrder([opt])) == OptionTag(opt) + sub;
      PreOrderAppend(init, [opt]);
      TagsAppend(PreOrder(init), PreOrder([opt]));
      ConcatAssoc(Tags(PreOrder(init)), OptionTag(opt), sub);
    }
  }

  /** The tags of one record's visit: its own, then its children's. */
  lemma {:induction false} VisitTags(opt: Item)
    ensures Tags(PreOrder([opt]))
         == OptionTag(opt) + if opt.childCount > 0 then Tags(PreOrder(opt.children)) else ""
  {
    var kids := if opt.childCount > 0 then PreOrder(opt.children) else [];
    assert [opt][1..] == [];
    assert PreOrder([opt]) == [opt] + kids;
    assert ([opt] + kids)[1..] == kids;
  }

  // ---------------------------------------------------------------------
  // What is rendered for a tree built by sbsp_processPosts

  /** The number of posts, at any level, that have at least one child. */
  function ParentCount(posts: seq<Post>): nat
  {
    if posts == [] then 0
    else
      var post := posts[|posts| - 1];
      ParentCount(posts[..|posts| - 1]) + if |post.childPosts| > 0 then 1 + ParentCount(post.childPosts) else 0
  }

  /** Rendering the built tree visits one record per post that has a child,
      at whatever depth, and no other. */
  lemma {:induction false} OneOptionPerParent(posts: seq<Post>, depth: nat)
    ensures |PreOrder(Processed(posts, depth))| == ParentCount(posts)
  {
    if posts != [] {
      var init, post := posts[..|posts| - 1], posts[|posts| - 1];
      OneOptionPerParent(init, depth);
      if |post.childPosts| > 0 {
        var item := Item(post.id, post.title, depth, |post.childPosts|, Processed(post.childPosts, depth + 1));
        OneOptionPerParent(post.childPosts, depth + 1);
        PreOrderAppend(Processed(init, depth), [item]);
        assert PreOrder([item]) == [item] + PreOrder(item.children) + PreOrder([]);
      } else {
        assert Processed(posts, depth) == Processed(init, depth);
      }
    }
  }

  /** Every record visited when rendering a well-formed tree built at `depth`
      counted at least one child and sits at `depth` or deeper: a leaf post
      never gets an option. */
  lemma {:induction false} RenderedRecordsAreParents(items: seq<Item>, depth: nat)
    requires WellFormed(items, depth)
    ensures forall k :: 0 <= k < |PreOrder(items)| ==>
              PreOrder(items)[k].childCount > 0 && PreOrder(items)[k].depth >= depth
  {
    if items != [] {
      var opt := items[0];
      assert WellFormed(items[1..], depth) by {
        forall k | 0 <= k < |items[1..]| ensures items[1..][k] == items[k + 1] { }
      }
      RenderedRecordsAreParents(items[1..], depth);
      RenderedRecordsAreParents(opt.children, depth + 1);
      var kids := PreOrder(opt.children);
      assert PreOrder(items) == [opt] + kids + PreOrder(items[1..]);
    }
  }

  /** The label prefix is empty at depth 0; otherwise it is `depth` copies of
      the indentation unit followed by one space. */
  lemma {:induction false} IndentShape(depth: nat)
    ensures depth == 0 ==> Indent(depth) == ""
    ensures depth > 0 ==> (|Indent(depth)| == depth * |IndentUnit| + 1
                           && Indent(depth)[depth * |IndentUnit|] == ' ')
    ensures forall k :: 0 <= k < depth ==>
              Indent(depth)[k * |IndentUnit|..k * |IndentUnit| + |IndentUnit|] == IndentUnit
  {
    if depth > 0 {
      var copies := Repeat(IndentUnit, depth);
      assert Indent(depth) == copies + " ";
      RepeatLength(IndentUnit, depth);
      forall k | 0 <= k < depth
        ensures Indent(depth)[k * |IndentUnit|..k * |IndentUnit| + |IndentUnit|] == IndentUnit
      {
        RepeatCopies(IndentUnit, depth, k);
        MulMonotone(k + 1, depth, |IndentUnit|);
        SliceOfPrefix(copies, " ", k * |IndentUnit|, k * |IndentUnit| + |IndentUnit|);
      }
    }
  }
}

/** The shared pieces of the IMAP protocol crate: tags, UIDs and the
    parenthesized list every response uses. */
module ImapProto {
  import opened Text

  /** A command tag; it prints as its text. */
  type Tag = string

  /** `Uid(NonZeroU32)`. */
  type Uid = n: nat | 0 < n <= U32_MAX witness 1

  /** A parenthesized list: the items, single spaces between them. */
  function ParenList(items: seq<string>): string
  {
    "(" + Join(items, " ") + ")"
  }

  /** `fmt_paren_list`: writes `(`, then each item followed by a space when
      another item comes after it, then `)`. */
  method FmtParenList(items: seq<string>) returns (out: string)
    ensures out == ParenList(items)
  {
    out := "(";
    var i := 0;
    while i < |items|
      invariant 0 <= i <= |items|
      invariant out == "(" + Join(items[..i], " ") + (if 0 < i < |items| then " " else "")
    {
      JoinSnoc(items[..i], items[i], " ");
      assert items[..i + 1] == items[..i] + [items[i]];
      out := out + items[i];
      if i + 1 < |items| {
        out := out + " ";
      }
      i := i + 1;
    }
    assert items[..i] == items;
    out := out + ")";
  }

  /** The items of a nonempty list whose items hold no space are read back by
      splitting the text between the parentheses at spaces. */
  lemma ParenListSplit(items: seq<string>)
    requires |items| >= 1
    requires forall i :: 0 <= i < |items| ==> ' ' !in items[i]
    ensures var s := ParenList(items); |s| >= 2 && s[0] == '(' && s[|s| - 1] == ')'
    ensures var s := ParenList(items); Split(s[1..|s| - 1], ' ') == items
  {
    var s := ParenList(items);
    assert s[1..|s| - 1] == Join(items, " ");
    SplitJoin(items, ' ');
  }

  /** The list of the doc example, `(1 2 3)`, and the empty list `()`. */
  lemma ParenListExamples()
    ensures ParenList(["1", "2", "3"]) == "(1 2 3)"
    ensures ParenList([]) == "()"
  {
    JoinSnoc(["1"], "2", " ");
    JoinSnoc(["1", "2"], "3", " ");
    assert ["1"] + ["2"] == ["1", "2"];
    assert ["1", "2"] + ["3"] == ["1", "2", "3"];
  }
}

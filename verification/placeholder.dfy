/**
 The placeholder grammar: a string value `<k>` designates the override `k`.
 There is no escaping; any string that starts with `<` and ends with `>`
 is read this way.
 */
module Placeholder {
  import opened ConfigTree
  import opened Strings

  /** The delimiter test of the source: starts with `<` and ends with `>`. */
  predicate Delimited(s: string) {
    StartsWith(s, "<") && EndsWith(s, ">")
  }

  /** The text between the delimiters (the source's `value[1:-1]`). */
  function Name(s: string): (k: string)
    requires Delimited(s)
    ensures s == "<" + k + ">"
  {
    assert s[0] == '<' && s[|s| - 1] == '>';
    s[1..|s| - 1]
  }

  /** `s` is a placeholder for an override present in `extra`. */
  predicate IsPlaceholder(s: string, extra: map<string, string>) {
    Delimited(s) && Name(s) in extra
  }

  /** A scalar string leaf that is a placeholder for an override in `extra`. */
  predicate IsPlaceholderLeaf(t: Tree, extra: map<string, string>) {
    t.Leaf? && t.scalar.Str? && IsPlaceholder(t.scalar.s, extra)
  }

  /** Wrapping a name in delimiters gives a placeholder whose name is that name. */
  lemma WrapThenName(k: string)
    ensures Delimited("<" + k + ">")
    ensures Name("<" + k + ">") == k
  {
    var s := "<" + k + ">";
    assert s[..1] == "<";
    assert s[|s| - 1..] == ">";
    assert s[1..|s| - 1] == k;
  }
}

/** The brace-delimited temporal literal the trajectory loader writes,
    `{tok, tok, ...}`, and the reading of such a literal back into its
    tokens. */
module Literals {
  import opened Wrappers

  /** `", ".join(items)` */
  function Join(items: seq<string>): string {
    if items == [] then ""
    else if |items| == 1 then items[0]
    else items[0] + ", " + Join(items[1..])
  }

  /** `f"{{{', '.join(tokens)}}}"`: the tokens between braces. */
  function SetLiteral(tokens: seq<string>): (r: string)
    ensures |r| >= 2 && r[0] == '{' && r[|r| - 1] == '}'
  {
    "{" + Join(tokens) + "}"
  }

  /** The literal of an optional channel: `None` (SQL NULL) for an empty
      token list, never `{}`. */
  function OptionalLiteral(tokens: seq<string>): (r: Option<string>)
    ensures r.None? <==> tokens == []
    ensures r.Some? ==> r.value == SetLiteral(tokens)
  {
    if tokens != [] then Some(SetLiteral(tokens)) else None
  }

  /** `s` holds no `", "` separator. */
  predicate NoSeparator(s: string) {
    forall i :: 0 <= i < |s| - 1 ==> !(s[i] == ',' && s[i + 1] == ' ')
  }

  /** `s.split(", ")` */
  function Split(s: string): (r: seq<string>)
    ensures |r| >= 1
    decreases |s|
  {
    if |s| < 2 then [s]
    else if s[0] == ',' && s[1] == ' ' then [""] + Split(s[2..])
    else
      var rest := Split(s[1..]);
      [[s[0]] + rest[0]] + rest[1..]
  }

  /** The tokens of a brace-delimited literal. */
  function ParseLiteral(s: string): Option<seq<string>> {
    if |s| >= 2 && s[0] == '{' && s[|s| - 1] == '}' then Some(Split(s[1..|s| - 1])) else None
  }

  lemma {:induction false} SplitSingle(t: string)
    requires NoSeparator(t)
    ensures Split(t) == [t]
    decreases |t|
  {
    if |t| >= 2 {
      assert !(t[0] == ',' && t[1] == ' ');
      SplitSingle(t[1..]);
      assert [t[0]] + t[1..] == t;
    }
  }

  lemma {:induction false} SplitFirst(t: string, rest: string)
    requires NoSeparator(t)
    ensures Split(t + ", " + rest) == [t] + Split(rest)
    decreases |t|
  {
    var s := t + ", " + rest;
    if t == [] {
      assert s == ", " + rest;
      assert s[2..] == rest;
    } else {
      assert !(s[0] == ',' && s[1] == ' ') by {
        if |t| >= 2 { assert !(t[0] == ',' && t[1] == ' '); } else { assert s[1] == ','; }
      }
      assert s[1..] == t[1..] + ", " + rest;
      SplitFirst(t[1..], rest);
      assert [t[0]] + t[1..] == t;
    }
  }

  /** Splitting a joined list gives the list back, when it is not empty
      and no item holds the separator. */
  lemma {:induction false} SplitJoin(items: seq<string>)
    requires |items| >= 1
    requires forall i :: 0 <= i < |items| ==> NoSeparator(items[i])
    ensures Split(Join(items)) == items
  {
    if |items| == 1 {
      SplitSingle(items[0]);
    } else {
      SplitJoin(items[1..]);
      SplitFirst(items[0], Join(items[1..]));
    }
  }

  /** Reading a literal back gives its tokens, when there is at least one
      and no token holds the separator. */
  lemma ParseSetLiteral(tokens: seq<string>)
    requires |tokens| >= 1
    requires forall i :: 0 <= i < |tokens| ==> NoSeparator(tokens[i])
    ensures ParseLiteral(SetLiteral(tokens)) == Some(tokens)
  {
    var s := SetLiteral(tokens);
    assert s[1..|s| - 1] == Join(tokens);
    SplitJoin(tokens);
  }

  /** A token `value@time` split at its last `@`. */
  function SplitToken(s: string): (r: Option<(string, string)>)
    decreases |s|
  {
    if s == [] then None
    else if s[|s| - 1] == '@' then Some((s[..|s| - 1], ""))
    else match SplitToken(s[..|s| - 1])
      case None => None
      case Some(p) => Some((p.0, p.1 + [s[|s| - 1]]))
  }

  /** Splitting `value@time` at its last `@` gives the value and the time
      back, when the time holds no `@`. */
  lemma {:induction false} SplitStamped(value: string, time: string)
    requires '@' !in time
    ensures SplitToken(value + "@" + time) == Some((value, time))
    decreases |time|
  {
    var s := value + "@" + time;
    if time == [] {
      assert s[..|s| - 1] == value;
    } else {
      var time' := time[..|time| - 1];
      assert s[..|s| - 1] == value + "@" + time';
      assert time[|time| - 1] in time;
      SplitStamped(value, time');
      assert time' + [time[|time| - 1]] == time;
    }
  }
}

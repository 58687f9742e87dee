/** Joining names with a separator, and splitting again. */
module Strings {

  function Join(names: seq<string>, sep: char): string {
    if names == [] then ""
    else if |names| == 1 then names[0]
    else Join(names[..|names| - 1], sep) + [sep] + names[|names| - 1]
  }

  /** The pieces between separators; one empty piece for the empty string. */
  function Split(s: string, sep: char): (pieces: seq<string>)
    ensures pieces != []
  {
    if s == "" then [""]
    else
      var front, last := Split(s[..|s| - 1], sep), s[|s| - 1];
      if last == sep then front + [""]
      else front[..|front| - 1] + [front[|front| - 1] + [last]]
  }

  lemma {:induction false} JoinAppend(names: seq<string>, name: string, sep: char)
    ensures Join(names + [name], sep) == if names == [] then name else Join(names, sep) + [sep] + name
  {
    assert (names + [name])[..|names|] == names;
  }

  lemma {:induction false} JoinPrefix(names: seq<string>, k: nat, sep: char)
    requires k < |names|
    ensures Join(names[..k + 1], sep) ==
            (if k == 0 then "" else Join(names[..k], sep) + [sep]) + names[k]
    ensures |Join(names[..k + 1], sep)| <= |Join(names, sep)|
    decreases |names| - k
  {
    assert names[..k + 1] == names[..k] + [names[k]];
    JoinAppend(names[..k], names[k], sep);
    if k + 1 < |names| {
      JoinPrefix(names, k + 1, sep);
    } else {
      assert names[..k + 1] == names;
    }
  }

  lemma {:induction false} SplitPlain(name: string, sep: char)
    requires sep !in name
    ensures Split(name, sep) == [name]
  {
    if name != "" {
      SplitPlain(name[..|name| - 1], sep);
      assert name == name[..|name| - 1] + [name[|name| - 1]];
    }
  }

  lemma {:induction false} SplitAppend(s: string, name: string, sep: char)
    requires sep !in name
    ensures Split(s + [sep] + name, sep) == Split(s, sep) + [name]
  {
    var t := s + [sep] + name;
    if name == "" {
      assert t[..|t| - 1] == s;
    } else {
      var front, last := name[..|name| - 1], name[|name| - 1];
      SplitAppend(s, front, sep);
      assert t[..|t| - 1] == s + [sep] + front;
      assert name == front + [last];
    }
  }

  /** Splitting a joined list of plain names gives the list back, duplicates included. */
  lemma {:induction false} SplitJoin(names: seq<string>, sep: char)
    requires names != [] && forall i :: 0 <= i < |names| ==> sep !in names[i]
    ensures Split(Join(names, sep), sep) == names
  {
    var n := |names| - 1;
    if n == 0 {
      SplitPlain(names[0], sep);
    } else {
      SplitJoin(names[..n], sep);
      SplitAppend(Join(names[..n], sep), names[n], sep);
      assert names == names[..n] + [names[n]];
    }
  }

  /** All segments one after another. */
  function Concat(segments: seq<string>): string {
    if segments == [] then "" else Concat(segments[..|segments| - 1]) + segments[|segments| - 1]
  }
}

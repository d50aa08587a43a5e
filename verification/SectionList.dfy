/** prev_item and conf_get_string of the CMP command: a list of section names is read
    from the back, and the last section that defines a name wins. */
module SectionList {
  import opened Options

  const SECTION_NAME_MAX: nat := 40

  predicate IsSpace(c: char) {
    c == ' ' || ('\t' <= c <= '\r')
  }

  predicate IsSeparator(c: char) {
    c == ',' || IsSpace(c)
  }

  /** Names are cut to the size of the static buffer. */
  function Cut(s: string): string {
    if |s| > SECTION_NAME_MAX then s[..SECTION_NAME_MAX] else s
  }

  /** The names of a list, read from the front one character at a time. */
  function Words(s: string): (w: seq<string>)
    ensures s != [] && !IsSeparator(s[|s| - 1]) ==> |w| > 0
  {
    if s == [] then []
    else
      var n := |s| - 1;
      var w := Words(s[..n]);
      if IsSeparator(s[n]) then w
      else if n > 0 && !IsSeparator(s[n - 1]) then w[..|w| - 1] + [w[|w| - 1] + [s[n]]]
      else w + [[s[n]]]
  }

  lemma {:induction false} WordsSkip(s: string, a: nat, b: nat)
    requires a <= b <= |s| && forall i :: a <= i < b ==> IsSeparator(s[i])
    ensures Words(s[..b]) == Words(s[..a])
  {
    if a < b {
      WordsSkip(s, a, b - 1);
      assert s[..b][..b - 1] == s[..b - 1];
    }
  }

  lemma {:induction false} WordsTake(s: string, beg: nat, end: nat)
    requires beg < end <= |s| && forall i :: beg <= i < end ==> !IsSeparator(s[i])
    requires beg == 0 || IsSeparator(s[beg - 1])
    ensures Words(s[..end]) == Words(s[..beg]) + [s[beg..end]]
  {
    hide Words, IsSeparator;
    WordsGrow(s, end - 1);
    var (before, last) := (Words(s[..beg]), s[beg..end]);
    if beg == end - 1 {
      assert last == [s[beg]];
    } else {
      WordsTake(s, beg, end - 1);
      assert last == s[beg..end - 1] + [s[end - 1]];
      ReplaceLast(before, s[beg..end - 1], last);
    }
  }

  lemma ReplaceLast(w: seq<string>, x: string, y: string)
    ensures (w + [x])[..|w|] + [y] == w + [y] && |w + [x]| == |w| + 1 && (w + [x])[|w|] == x
  {
  }

  /** One more character that is not a separator. */
  lemma WordsGrow(s: string, n: nat)
    requires n < |s| && !IsSeparator(s[n])
    ensures var w := Words(s[..n]);
      Words(s[..n + 1]) ==
        if n > 0 && !IsSeparator(s[n - 1]) && |w| > 0 then w[..|w| - 1] + [w[|w| - 1] + [s[n]]] else w + [[s[n]]]
  {
    assert s[..n + 1][..n] == s[..n];
  }

  /** What is left of the list before position `end`, and the item just before it. */
  ghost predicate PrevIs(s: string, end: nat, beg: nat, item: string)
    requires end <= |s|
  {
    && beg < end
    && (if IsSeparator(s[end - 1]) then item == "" && Words(s[..beg]) == Words(s[..end])
        else exists w :: item == Cut(w) && Words(s[..end]) == Words(s[..beg]) + [w])
    && (beg > 0 ==> !IsSeparator(s[beg - 1]))
  }

  /** prev_item: the item that ends at `end` and where the list before it ends; -1 for
      the null pointer.  Each call moves strictly to the left. */
  method PrevItem(opt: string, end: nat) returns (beg: int, item: string)
    requires end <= |opt|
    ensures end == 0 <==> beg == -1
    ensures end > 0 ==> beg >= 0 && PrevIs(opt, end, beg, item)
  {
    hide Words;
    if end == 0 {
      return -1, "";
    }
    beg := end;
    while beg > 0
      invariant 0 <= beg <= end
      invariant forall i :: beg <= i < end ==> !IsSeparator(opt[i])
      decreases beg
    {
      beg := beg - 1;
      if IsSeparator(opt[beg]) {
        beg := beg + 1;
        break;
      }
    }
    assert beg == 0 || IsSeparator(opt[beg - 1]);
    ghost var start := beg;
    item := Cut(opt[beg..end]);
    if start < end { WordsTake(opt, start, end); }
    while beg > 0
      invariant 0 <= beg <= start
      invariant forall i :: beg <= i < start ==> IsSeparator(opt[i])
      decreases beg
    {
      beg := beg - 1;
      if !IsSeparator(opt[beg]) {
        beg := beg + 1;
        break;
      }
    }
    WordsSkip(opt, beg, start);
    if start < end { assert item == Cut(opt[start..end]); }
  }

  /** The value from the last of `words` that defines the name. */
  function LastDefined(words: seq<string>, get: string -> Option<string>): Option<string> {
    if words == [] then None
    else
      var v := get(Cut(words[|words| - 1]));
      if v.Some? then v else LastDefined(words[..|words| - 1], get)
  }

  lemma LastDefinedStep(words: seq<string>, w: string, get: string -> Option<string>)
    ensures LastDefined(words + [w], get) == if get(Cut(w)).Some? then get(Cut(w)) else LastDefined(words, get)
  {
    assert (words + [w])[..|words|] == words;
  }

  lemma NoWords(get: string -> Option<string>)
    ensures LastDefined(Words([]), get) == None
  {
  }

  /** conf_get_string.  A separator at the very end of the list makes one lookup in the
      section with the empty name first. */
  method ConfGetString(groups: string, get: string -> Option<string>) returns (res: Option<string>)
    ensures res == if groups != [] && IsSeparator(groups[|groups| - 1]) && get("").Some? then get("")
                   else LastDefined(Words(groups), get)
  {
    hide Words, LastDefined, Cut;
    res := None;
    var end := |groups|;
    assert groups[..end] == groups;
    while true
      invariant 0 <= end <= |groups|
      invariant end == |groups| || end == 0 || !IsSeparator(groups[end - 1])
      invariant end < |groups| ==> !(IsSeparator(groups[|groups| - 1]) && get("").Some?)
      invariant LastDefined(Words(groups[..end]), get) == LastDefined(Words(groups), get)
      decreases end
    {
      var before := end;
      var beg, item := PrevItem(groups, end);
      if beg < 0 {
        assert groups[..end] == [];
        NoWords(get);
        return None;
      }
      res := get(item);
      if !IsSeparator(groups[before - 1]) {
        ghost var w :| item == Cut(w) && Words(groups[..before]) == Words(groups[..beg]) + [w];
        LastDefinedStep(Words(groups[..beg]), w, get);
      }
      if res.Some? {
        return;
      }
      end := beg;
    }
  }

  /** The result is the value of some listed section, and every later one lacks it. */
  lemma {:induction false} LastDefinedMeans(words: seq<string>, get: string -> Option<string>)
    ensures LastDefined(words, get).None? <==> forall i :: 0 <= i < |words| ==> get(Cut(words[i])).None?
    ensures LastDefined(words, get).Some? ==>
      exists k :: 0 <= k < |words| && get(Cut(words[k])) == LastDefined(words, get)
        && forall i :: k < i < |words| ==> get(Cut(words[i])).None?
  {
    if words != [] {
      var n := |words| - 1;
      var rest := words[..n];
      LastDefinedMeans(rest, get);
      if get(Cut(words[n])).None? && LastDefined(rest, get).Some? {
        var k :| 0 <= k < |rest| && get(Cut(rest[k])) == LastDefined(rest, get)
          && forall i :: k < i < |rest| ==> get(Cut(rest[i])).None?;
        assert get(Cut(words[k])) == LastDefined(words, get);
        assert forall i :: k < i < |words| ==> get(Cut(words[i])).None?;
      }
      assert forall i :: 0 <= i < n ==> rest[i] == words[i];
    }
  }

  /** Words are the maximal separator-free stretches: none is empty or contains a
      separator, and together they hold the other characters of the list in order. */
  lemma {:induction false} WordsClean(s: string, i: nat)
    requires i < |Words(s)|
    ensures Words(s)[i] != [] && forall k :: 0 <= k < |Words(s)[i]| ==> !IsSeparator(Words(s)[i][k])
  {
    if s != [] {
      var n := |s| - 1;
      var w := Words(s[..n]);
      if i < |w| { WordsClean(s[..n], i); }
    }
  }

  /** The separators: comma and the six characters isspace accepts in the C locale. */
  lemma SeparatorsAre(c: char)
    ensures IsSeparator(c) <==> c as int in {',' as int, ' ' as int, 9, 10, 11, 12, 13}
    ensures IsSeparator(',') && IsSeparator(' ')
  {
  }

  /** A name keeps its first 40 characters. */
  lemma CutIs(s: string)
    ensures Cut(s) <= s && |Cut(s)| == if |s| < 40 then |s| else 40
  {
  }

  /** Names joined by a separator string. */
  function Join(names: seq<string>, sep: string): string {
    if names == [] then "" else Join(names[..|names| - 1], sep) + sep + names[|names| - 1]
  }

  predicate Name(s: string) {
    s != "" && forall i :: 0 <= i < |s| ==> s[i] != ',' && s[i] != ' ' && !(9 <= s[i] as int <= 13)
  }

  lemma WordsAppend(s: string, a: nat, b: nat)
    requires a < b < |s|
    requires forall i :: a <= i < b ==> IsSeparator(s[i])
    requires forall i :: b <= i < |s| ==> !IsSeparator(s[i])
    ensures Words(s) == Words(s[..a]) + [s[b..]]
  {
    hide Words, IsSeparator;
    WordsSkip(s, a, b);
    WordsTake(s, b, |s|);
    assert s[..|s|] == s && s[b..|s|] == s[b..];
  }

  predicate Separating(sep: string) {
    sep != "" && forall i :: 0 <= i < |sep| ==> sep[i] == ',' || sep[i] == ' '
  }

  lemma JoinUnfold(names: seq<string>, sep: string)
    ensures Join([], sep) == "" && Words("") == []
    ensures names != [] ==> Join(names, sep) == Join(names[..|names| - 1], sep) + sep + names[|names| - 1]
  {
  }

  lemma JoinedNext(front: string, sep: string, name: string)
    requires Separating(sep) && Name(name)
    ensures Words(front + sep + name) == Words(front) + [name]
  {
    hide Words, IsSeparator;
    var (s, a, b) := (front + sep + name, |front|, |front| + |sep|);
    forall i | a <= i < b
      ensures IsSeparator(s[i])
    {
      assert s[i] == sep[i - a];
      SeparatorsAre(s[i]);
    }
    forall i | b <= i < |s|
      ensures !IsSeparator(s[i])
    {
      assert s[i] == name[i - b];
      SeparatorsAre(s[i]);
    }
    WordsAppend(s, a, b);
    assert s[..a] == front && s[b..] == name;
  }

  /** A list of names separated by commas, spaces or both is read back as these names. */
  lemma {:induction false} WordsJoined(names: seq<string>, sep: string)
    requires Separating(sep)
    requires forall i :: 0 <= i < |names| ==> Name(names[i])
    ensures Words(Join(names, sep)) == names
  {
    hide Words, Name, Join, Separating;
    JoinUnfold(names, sep);
    if names != [] {
      var n := |names| - 1;
      assert names == names[..n] + [names[n]];
      WordsJoined(names[..n], sep);
      JoinedNext(Join(names[..n], sep), sep, names[n]);
    }
  }

  function Flatten(words: seq<string>): string {
    if words == [] then [] else Flatten(words[..|words| - 1]) + words[|words| - 1]
  }

  function Solid(s: string): string {
    if s == [] then [] else Solid(s[..|s| - 1]) + if IsSeparator(s[|s| - 1]) then [] else [s[|s| - 1]]
  }

  lemma {:induction false} WordsComplete(s: string)
    ensures Flatten(Words(s)) == Solid(s)
  {
    if s != [] {
      var n := |s| - 1;
      var w := Words(s[..n]);
      WordsComplete(s[..n]);
      var r := Words(s);
      if !IsSeparator(s[n]) {
        if n > 0 && !IsSeparator(s[n - 1]) {
          assert r[..|r| - 1] == w[..|w| - 1] && r[|r| - 1] == w[|w| - 1] + [s[n]];
        } else {
          assert r[..|r| - 1] == w;
        }
      }
    }
  }
}

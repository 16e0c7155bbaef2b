/** The initials the top bar shows for the signed-in user: the first letters
    of the first two words of the display name, upper-cased, with "U"
    standing in for a blank name. Words are separated by the space
    character only, as `split(" ")` separates them. */
module TopBar {
  import opened Wrappers
  import Seqs
  import Text

  predicate NonEmptyWord(w: string) {
    |w| > 0
  }

  /** `name.split(" ").filter((part) => part.length > 0)`. */
  function Words(name: string): seq<string> {
    Seqs.Filter(Text.Split(name, ' '), NonEmptyWord)
  }

  /** `.map((part) => part[0]).join("")`; an empty part would contribute
      nothing, as `undefined` joins as "". */
  function Heads(parts: seq<string>): string
    decreases |parts|
  {
    if parts == [] then ""
    else (if parts[0] == "" then "" else [parts[0][0]]) + Heads(parts[1..])
  }

  function Min(a: int, b: int): int {
    if a < b then a else b
  }

  /** `getInitials(name)`: "U" for a missing or blank name, and otherwise
      the heads of the words, upper-cased and cut to two characters. */
  function Initials(name: Option<string>): string {
    if name.None? || Text.Trim(name.value) == "" then "U"
    else Cut(Text.Upper(Heads(Words(name.value))))
  }

  /** `.slice(0, 2)`. */
  function Cut(u: string): string {
    u[..Min(2, |u|)]
  }

  /** The characters of `s` that start a word: each that is not a space
      and comes first or right after a space (`afterSpace` says whether the
      character before `s` was one). */
  function WordStarts(s: string, afterSpace: bool): string
    decreases |s|
  {
    if s == [] then ""
    else (if s[0] != ' ' && afterSpace then [s[0]] else []) + WordStarts(s[1..], s[0] == ' ')
  }

  /** The heads of the words are exactly the word-starting characters, in
      order. The second half is for the pieces after the first, whose
      first piece a character before `s` has already begun. */
  lemma {:induction false} HeadsAreWordStarts(s: string)
    ensures Heads(Words(s)) == WordStarts(s, true)
    ensures Heads(Seqs.Filter(Text.Split(s, ' ')[1..], NonEmptyWord)) == WordStarts(s, false)
    decreases |s|
  {
    if s == [] {
      assert Text.Split(s, ' ') == [""];
      assert Text.Split(s, ' ')[1..] == [];
    } else if s[0] == ' ' {
      HeadsAreWordStarts(s[1..]);
      SpaceFirst(s);
    } else {
      HeadsAreWordStarts(s[1..]);
      LetterFirst(s);
    }
  }

  /** A leading space ends an empty first piece. */
  lemma SpaceFirst(s: string)
    requires s != [] && s[0] == ' '
    ensures Words(s) == Words(s[1..])
    ensures Text.Split(s, ' ')[1..] == Text.Split(s[1..], ' ')
    ensures WordStarts(s, true) == WordStarts(s[1..], true) == WordStarts(s, false)
  {
    var rest := Text.Split(s[1..], ' ');
    assert Text.Split(s, ' ') == [""] + rest;
    FilterCons("", rest);
  }

  /** A leading non-space begins the first word. */
  lemma LetterFirst(s: string)
    requires s != [] && s[0] != ' '
    ensures Heads(Words(s)) == [s[0]] + Heads(Seqs.Filter(Text.Split(s[1..], ' ')[1..], NonEmptyWord))
    ensures Text.Split(s, ' ')[1..] == Text.Split(s[1..], ' ')[1..]
    ensures WordStarts(s, true) == [s[0]] + WordStarts(s[1..], false)
    ensures WordStarts(s, false) == WordStarts(s[1..], false)
  {
    var rest := Text.Split(s[1..], ' ');
    var first := [s[0]] + rest[0];
    assert Text.Split(s, ' ') == [first] + rest[1..];
    FilterCons(first, rest[1..]);
    HeadsCons(first, Seqs.Filter(rest[1..], NonEmptyWord));
  }

  lemma HeadsCons(x: string, rest: seq<string>)
    ensures Heads([x] + rest) == (if x == "" then "" else [x[0]]) + Heads(rest)
  {
    assert ([x] + rest)[1..] == rest;
  }

  lemma FilterCons(x: string, rest: seq<string>)
    ensures Seqs.Filter([x] + rest, NonEmptyWord)
            == (if NonEmptyWord(x) then [x] else []) + Seqs.Filter(rest, NonEmptyWord)
  {
    assert ([x] + rest)[1..] == rest;
  }

  /** A string with a non-space character starts at least one word. */
  lemma {:induction false} SomeWordStarts(s: string, i: nat)
    requires i < |s| && s[i] != ' '
    ensures |WordStarts(s, true)| >= 1
    decreases |s|
  {
    if s[0] == ' ' {
      SomeWordStarts(s[1..], i - 1);
    }
  }

  /** The heads of non-empty parts are their first characters, one each. */
  lemma {:induction false} HeadsOfWords(parts: seq<string>)
    requires forall i :: 0 <= i < |parts| ==> |parts[i]| > 0
    ensures |Heads(parts)| == |parts|
    ensures forall i :: 0 <= i < |parts| ==> Heads(parts)[i] == parts[i][0]
    decreases |parts|
  {
    if parts != [] {
      HeadsOfWords(parts[1..]);
      assert forall i :: 1 <= i < |parts| ==> parts[i] == parts[1..][i - 1];
    }
  }

  /** A missing or blank name gives "U"; any name gives at most two
      characters. */
  lemma InitialsBlank(name: Option<string>)
    ensures name.None? ==> Initials(name) == "U"
    ensures name.Some? && Text.IsBlank(name.value) ==> Initials(name) == "U"
    ensures |Initials(name)| <= 2
  {
    if name.Some? {
      Text.TrimEmptyIffBlank(name.value);
    }
  }

  /** For a name that is not blank the initials are the upper-cased first
      characters of its first words, in order, one per word up to two, and
      there is at least one. */
  lemma InitialsOfWords(name: string)
    requires !Text.IsBlank(name)
    ensures var words := Words(name);
            && |Initials(Some(name))| == Min(2, |words|) >= 1
            && forall i :: 0 <= i < |Initials(Some(name))| ==> Initials(Some(name))[i] == Text.UpperChar(words[i][0])
  {
    InitialsCut(name);
    var words := Words(name);
    WordsNonEmpty(name);
    HeadsOfWords(words);
    CutUpper(Heads(words), words);
  }

  /** The same initials read off the name itself: the word-starting
      characters, upper-cased and cut to two. */
  lemma InitialsAreWordStarts(name: string)
    requires !Text.IsBlank(name)
    ensures Initials(Some(name)) == Cut(Text.Upper(WordStarts(name, true)))
  {
    InitialsCut(name);
    HeadsAreWordStarts(name);
  }

  lemma InitialsCut(name: string)
    requires !Text.IsBlank(name)
    ensures Initials(Some(name)) == Cut(Text.Upper(Heads(Words(name))))
    ensures |Words(name)| >= 1
  {
    Text.TrimEmptyIffBlank(name);
    HeadsAreWordStarts(name);
    var i :| 0 <= i < |name| && !Text.IsSpace(name[i]);
    SomeWordStarts(name, i);
    WordsNonEmpty(name);
    HeadsOfWords(Words(name));
  }

  lemma WordsNonEmpty(name: string)
    ensures forall i :: 0 <= i < |Words(name)| ==> |Words(name)[i]| > 0
  {
  }

  /** Cutting the upper-cased heads keeps one letter per word, up to two. */
  lemma CutUpper(h: string, words: seq<string>)
    requires |h| == |words| >= 1
    requires forall i :: 0 <= i < |words| ==> |words[i]| > 0 && h[i] == words[i][0]
    ensures |Cut(Text.Upper(h))| == Min(2, |words|) >= 1
    ensures forall i :: 0 <= i < |Cut(Text.Upper(h))| ==> Cut(Text.Upper(h))[i] == Text.UpperChar(words[i][0])
  {
  }

  /** Where a word starts in a concatenation: in the first string as on its
      own, and in the second as if after the first's last character. */
  lemma {:induction false} WordStartsAppend(a: string, b: string, afterSpace: bool)
    ensures WordStarts(a + b, afterSpace)
            == WordStarts(a, afterSpace) + WordStarts(b, if a == [] then afterSpace else a[|a| - 1] == ' ')
    decreases |a|
  {
    if a == [] {
      assert a + b == b;
    } else {
      var t := a[0] == ' ';
      assert (a + b)[0] == a[0];
      assert (a + b)[1..] == a[1..] + b;
      WordStartsAppend(a[1..], b, t);
      var head := if a[0] != ' ' && afterSpace then [a[0]] else [];
      assert WordStarts(a + b, afterSpace) == head + WordStarts(a[1..] + b, t);
      assert WordStarts(a, afterSpace) == head + WordStarts(a[1..], t);
      if |a| > 1 {
        assert a[1..][|a[1..]| - 1] == a[|a| - 1];
      }
    }
  }

  /** A run of spaces counts as one: doubling a space changes no initial. */
  lemma RepeatedSpaces(a: string, b: string)
    ensures Initials(Some(a + " " + b)) == Initials(Some(a + "  " + b))
  {
    var one, two := a + " " + b, a + "  " + b;
    BlankAlike(a, b);
    Text.TrimEmptyIffBlank(one);
    Text.TrimEmptyIffBlank(two);
    if !Text.IsBlank(one) {
      InitialsAreWordStarts(one);
      InitialsAreWordStarts(two);
      StartsRepeatedSpace(a, b);
    }
  }

  lemma StartsRepeatedSpace(a: string, b: string)
    ensures WordStarts(a + " " + b, true) == WordStarts(a + "  " + b, true)
  {
    assert a + " " + b == a + (" " + b);
    assert a + "  " + b == a + ("  " + b);
    WordStartsAppend(a, " " + b, true);
    WordStartsAppend(a, "  " + b, true);
    var t := if a == [] then true else a[|a| - 1] == ' ';
    assert ("  " + b)[1..] == " " + b;
    assert (" " + b)[1..] == b;
    assert WordStarts(" " + b, t) == WordStarts(b, true);
    assert WordStarts("  " + b, t) == WordStarts(" " + b, true);
  }

  lemma BlankAlike(a: string, b: string)
    ensures Text.IsBlank(a + " " + b) <==> Text.IsBlank(a + "  " + b)
  {
    var one, two := a + " " + b, a + "  " + b;
    if Text.IsBlank(one) {
      forall i | 0 <= i < |two| ensures Text.IsSpace(two[i]) {
        if i <= |a| {
          assert two[i] == one[i];
        } else {
          assert two[i] == one[i - 1];
        }
      }
    }
    if Text.IsBlank(two) {
      forall i | 0 <= i < |one| ensures Text.IsSpace(one[i]) {
        if i <= |a| {
          assert one[i] == two[i];
        } else {
          assert one[i] == two[i + 1];
        }
      }
    }
  }
}

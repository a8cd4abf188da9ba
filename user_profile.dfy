/**
 * The initials shown in the user's avatar: the first character of each
 * space-separated piece of the name, upper-cased, at most two of them; `D` when
 * there is no name.
 */
module UserProfile {
  import opened Wrappers
  import opened Text

  /** `s.split(' ')`: the pieces between single spaces; `n` spaces give `n + 1` pieces, some possibly empty. */
  function Split(s: string): (pieces: seq<string>)
    ensures |pieces| >= 1
    ensures forall p :: p in pieces ==> ' ' !in p
  {
    if s == [] then [""]
    else if s[0] == ' ' then [""] + Split(s[1..])
    else
      var rest := Split(s[1..]);
      [[s[0]] + rest[0]] + rest[1..]
  }

  /** `pieces.join(sep)`. */
  function Join(pieces: seq<string>, sep: string): string
    requires |pieces| >= 1
  {
    if |pieces| == 1 then pieces[0] else pieces[0] + sep + Join(pieces[1..], sep)
  }

  /** Joining the pieces with single spaces gives back the name: splitting loses nothing. */
  lemma {:induction false} JoinSplit(s: string)
    ensures Join(Split(s), " ") == s
  {
    if s != [] {
      JoinSplit(s[1..]);
      var rest := Split(s[1..]);
      if s[0] == ' ' {
        assert Split(s)[1..] == rest;
      } else {
        var pieces := Split(s);
        assert pieces[0] == [s[0]] + rest[0];
        if |rest| == 1 {
          assert Join(pieces, " ") == pieces[0];
        } else {
          assert pieces[1..] == rest[1..];
          assert Join(rest, " ") == rest[0] + " " + Join(rest[1..], " ");
        }
      }
    }
  }

  /** `pieces.map(n => n[0]).join('')`: each piece's first character; an empty piece gives nothing. */
  function FirstChars(pieces: seq<string>): (r: string)
    ensures |r| <= |pieces|
    ensures (forall i :: 0 <= i < |pieces| ==> pieces[i] != []) ==> |r| == |pieces|
  {
    if pieces == [] then []
    else (if pieces[0] == [] then [] else [pieces[0][0]]) + FirstChars(pieces[1..])
  }

  /**
   * The characters of `s` that start a word: not a space, and first in `s` (when
   * `atStart`) or right after a space.
   */
  function WordStarts(s: string, atStart: bool): (r: string)
    ensures ' ' !in r
  {
    if s == [] then []
    else (if s[0] != ' ' && atStart then [s[0]] else []) + WordStarts(s[1..], s[0] == ' ')
  }

  /**
   * The first characters of the pieces are exactly the characters that start a
   * word; the pieces after the first contribute the word starts after the first
   * space.
   */
  lemma {:induction false} FirstCharsAreWordStarts(s: string)
    ensures FirstChars(Split(s)) == WordStarts(s, true)
    ensures FirstChars(Split(s)[1..]) == WordStarts(s, false)
  {
    if s != [] {
      FirstCharsAreWordStarts(s[1..]);
      var rest := Split(s[1..]);
      if s[0] == ' ' {
        assert Split(s) == [""] + rest;
        assert Split(s)[1..] == rest;
      } else {
        var pieces := Split(s);
        assert pieces == [[s[0]] + rest[0]] + rest[1..];
        assert pieces[1..] == rest[1..];
      }
    }
  }

  /** `getInitials`: `D` for a missing or empty name, else the upper-cased word starts cut to two characters. */
  function Initials(name: Option<string>): (r: string)
    ensures !Truthy(name) ==> r == "D"
    ensures |r| <= 2
  {
    if !Truthy(name) then "D"
    else Substring(Upper(FirstChars(Split(name.value))), 0, 2)
  }

  /**
   * For a name, the initials are the first two characters that start a word,
   * upper-cased, in order: spaces at the start, at the end or doubled give nothing.
   */
  lemma InitialsOfName(name: string)
    requires name != ""
    ensures var starts := WordStarts(name, true);
      Initials(Some(name)) == Upper(starts)[..if |starts| < 2 then |starts| else 2]
  {
    FirstCharsAreWordStarts(name);
  }

  /** A single word has one initial: its first character, upper-cased. */
  lemma {:induction false} SingleWordInitial(word: string)
    requires word != "" && ' ' !in word
    ensures Initials(Some(word)) == [UpperChar(word[0])]
  {
    SingleWordIsOnePiece(word);
    assert FirstChars([word]) == [word[0]];
    var upper := Upper([word[0]]);
    assert Substring(upper, 0, 2) == upper[0..1];
  }

  lemma {:induction false} SingleWordIsOnePiece(word: string)
    requires ' ' !in word
    ensures Split(word) == [word]
  {
    if word != [] {
      assert ' ' !in word[1..] by {
        assert forall c :: c in word[1..] ==> c in word;
      }
      SingleWordIsOnePiece(word[1..]);
      assert [word[0]] + word[1..] == word;
    }
  }

  /** A name made only of spaces has empty initials. */
  lemma {:induction false} SpacesHaveNoInitials(name: string)
    requires name != "" && forall i :: 0 <= i < |name| ==> name[i] == ' '
    ensures Initials(Some(name)) == ""
  {
    FirstCharsAreWordStarts(name);
    NoWordStartsInSpaces(name, true);
  }

  lemma {:induction false} NoWordStartsInSpaces(s: string, atStart: bool)
    requires forall i :: 0 <= i < |s| ==> s[i] == ' '
    ensures WordStarts(s, atStart) == ""
  {
    if s != [] {
      NoWordStartsInSpaces(s[1..], true);
    }
  }
}

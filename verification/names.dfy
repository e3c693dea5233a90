/**
  What the names that declarations are made of look like, by the parts that
  underscores or dots cut them into.
 */
module Names {
  import opened Text
  import D = Operations
  import S = Settings

  // -------------------------------------------------------------- actions

  predicate AllUsable(parts: seq<string>) {
    forall i :: 0 <= i < |parts| ==> D.UsableName(parts[i])
  }

  lemma NoDots(s: string)
    requires D.UsableName(s)
    ensures '.' !in s
  {
  }

  lemma SplitAt(s: string, i: nat, sep: char)
    requires i < |s| && s[i] == sep && sep !in s[..i]
    ensures Split(s, sep) == [s[..i]] + Split(s[i + 1..], sep)
  {
    assert s == s[..i] + [sep] + s[i + 1..];
    IndexAfter(s[..i], sep, s[i + 1..]);
  }

  lemma SplitWhole(s: string, sep: char)
    requires sep !in s
    ensures Split(s, sep) == [s]
  {
    IndexAfter(s, sep, "");
  }

  lemma AllUsableFirst(part: string, parts: seq<string>)
    ensures AllUsable([part] + parts) <==> D.UsableName(part) && AllUsable(parts)
  {
    hide D.UsableName;
    if AllUsable([part] + parts) {
      assert ([part] + parts)[0] == part;
      forall i | 0 <= i < |parts| ensures D.UsableName(parts[i]) { assert ([part] + parts)[i + 1] == parts[i]; }
    }
  }

  lemma {:induction false} SegmentsAreParts(s: string, n: nat)
    ensures D.Segments(s, n) <==> |Split(s, '.')| >= n && AllUsable(Split(s, '.'))
    decreases |s|
  {
    hide D.UsableName, Split, AllUsable;
    var i := IndexOf(s, '.');
    if i == |s| {
      SplitWhole(s, '.');
      AllUsableFirst(s, []);
      assert [s] + [] == [s] && AllUsable([]) by { NoParts(); }
    } else {
      SplitAt(s, i, '.');
      SegmentsAreParts(s[i + 1..], if n > 0 then n - 1 else 0);
      AllUsableFirst(s[..i], Split(s[i + 1..], '.'));
      if D.UsableName(s) { NoDots(s); }
      forall j | 0 <= j < |s| && s[j] == '.' && D.UsableName(s[..j]) ensures j == i {
        assert i < j ==> '.' in s[..j] by { if i < j { assert s[..j][i] == '.'; } }
        NoDots(s[..j]);
      }
    }
  }

  lemma NoParts()
    ensures AllUsable([])
  {
  }

  /** An action is three usable names or more, with dots between. */
  lemma ActionsAreNames(s: string)
    ensures D.UsableAction(s) <==> |Split(s, '.')| >= 3 && AllUsable(Split(s, '.'))
  {
    hide D.Segments, AllUsable, Split;
    SegmentsAreParts(s, 3);
  }

  // --------------------------------------------------------- setting names

  predicate Word(s: string) {
    s != "" && forall i :: 0 <= i < |s| ==> 'a' <= s[i] <= 'z' || '0' <= s[i] <= '9'
  }

  predicate AllWords(parts: seq<string>) {
    forall i :: 0 <= i < |parts| ==> Word(parts[i])
  }

  /** A usable name but for its first character. */
  predicate Joined(s: string) {
    s != "" && s[|s| - 1] != '_' && forall i :: 0 <= i < |s| ==> S.Fitting(s, i)
  }

  lemma JoinedAt(s: string, i: nat)
    requires i < |s| && s[i] == '_' && '_' !in s[..i]
    ensures Joined(s) <==> Word(s[..i]) && Joined(s[i + 1..])
  {
    var a, b := s[..i], s[i + 1..];
    forall k | 0 <= k < i ensures a[k] == s[k] && s[k] != '_' {
      assert a[k] in a;
    }
    if Joined(s) {
      assert S.Fitting(s, 0) && S.Fitting(s, i);
      forall k | 0 <= k < i ensures S.WordChar(a[k]) { assert S.Fitting(s, k); }
      assert i + 1 < |s|;
      assert S.Fitting(s, i + 1);
      forall k | 0 <= k < |b| ensures S.Fitting(b, k) { assert S.Fitting(s, i + 1 + k); }
    }
    if Word(a) && Joined(b) {
      forall k | 0 <= k < |s| ensures S.Fitting(s, k) {
        if k < i {
          assert S.WordChar(a[k]);
        } else if k == i {
          assert S.WordChar(a[i - 1]);
        } else {
          assert S.Fitting(b, k - i - 1);
        }
      }
    }
  }

  lemma {:induction false} JoinedWords(s: string)
    ensures Joined(s) <==> AllWords(Split(s, '_'))
    decreases |s|
  {
    hide Split, Joined, AllWords, Word;
    var i := IndexOf(s, '_');
    if i == |s| {
      SplitWhole(s, '_');
      OneWord(s);
    } else {
      SplitAt(s, i, '_');
      JoinedAt(s, i);
      JoinedWords(s[i + 1..]);
      AllWordsFirst(s[..i], Split(s[i + 1..], '_'));
    }
  }

  lemma OneWord(s: string)
    requires '_' !in s
    ensures Joined(s) <==> AllWords([s])
  {
    assert [s][0] == s;
    if s != "" { assert s[|s| - 1] in s; }
    forall i | 0 <= i < |s| ensures S.Fitting(s, i) <==> S.WordChar(s[i]) { assert s[i] in s; }
    if Word(s) { assert AllWords([s]); }
  }

  lemma AllWordsFirst(part: string, parts: seq<string>)
    ensures AllWords([part] + parts) <==> Word(part) && AllWords(parts)
  {
    hide Word;
    if AllWords([part] + parts) {
      assert ([part] + parts)[0] == part;
      forall i | 0 <= i < |parts| ensures Word(parts[i]) { assert ([part] + parts)[i + 1] == parts[i]; }
    }
  }

  /** A setting's name is words of small letters and digits between single underscores, and begins with a letter. */
  lemma SettingNamesAreWords(s: string)
    ensures S.UsableName(s) <==> AllWords(Split(s, '_')) && s != "" && 'a' <= s[0] <= 'z'
  {
    hide AllWords, Split;
    JoinedWords(s);
    if s == "" { assert !Joined(s); }
  }

  // ------------------------------------------------------------ operations

  /** An operation's name, a selector and each part of an action: small letters, digits and underscores after a letter. */
  lemma NamesOfOperations(s: string)
    ensures D.UsableName(s) <==> exists c: char, rest: string ::
      s == [c] + rest && 'a' <= c <= 'z' && forall x :: x in rest ==> 'a' <= x <= 'z' || '0' <= x <= '9' || x == '_'
  {
    if D.UsableName(s) {
      assert s == [s[0]] + s[1..];
      forall x | x in s[1..] ensures 'a' <= x <= 'z' || '0' <= x <= '9' || x == '_' {
        var i :| 0 <= i < |s| - 1 && s[1..][i] == x;
        assert D.NameChar(s[i + 1]);
      }
    }
    if c: char, rest: string :|
      s == [c] + rest && 'a' <= c <= 'z' && forall x :: x in rest ==> 'a' <= x <= 'z' || '0' <= x <= '9' || x == '_'
    {
      forall i | 1 <= i < |s| ensures D.NameChar(s[i]) { assert s[i] == rest[i - 1] && rest[i - 1] in rest; }
    }
  }
}

/** `safe_filename` of simpler/format.py: the characters that are not
    allowed in a file name are deleted. */
module Format {

  /** The characters of the class `[/\\*;\[\]":=,<>]`. */
  const Forbidden: set<char> := {'/', '\\', '*', ';', '[', ']', '"', ':', '=', ',', '<', '>'}

  /** `safe_filename(filename)`: every forbidden character deleted, the
      others kept in order. */
  function SafeFilename(filename: string): (r: string)
    ensures |r| <= |filename|
    ensures forall i :: 0 <= i < |r| ==> r[i] !in Forbidden
  {
    if filename == [] then []
    else (if filename[0] in Forbidden then [] else [filename[0]]) + SafeFilename(filename[1..])
  }

  /** The filter works character by character: a forbidden one is
      dropped, any other is kept. */
  lemma SafeChar(c: char)
    ensures SafeFilename([c]) == if c in Forbidden then [] else [c]
  {
    assert [c][1..] == [];
  }

  /** Deleting distributes over concatenation, so what is kept stays in
      its order. */
  lemma {:induction false} SafeConcat(a: string, b: string)
    ensures SafeFilename(a + b) == SafeFilename(a) + SafeFilename(b)
  {
    if a == [] {
      assert a + b == b;
    } else {
      assert (a + b)[1..] == a[1..] + b;
      SafeConcat(a[1..], b);
    }
  }

  /** Exactly the forbidden characters go: every other character occurs as
      often as in the input. */
  lemma {:induction false} SafeCounts(filename: string, c: char)
    ensures multiset(SafeFilename(filename))[c] == if c in Forbidden then 0 else multiset(filename)[c]
  {
    if filename != [] {
      var h, t := filename[0], filename[1..];
      SafeCounts(t, c);
      var kept := if h in Forbidden then [] else [h];
      assert filename == [h] + t;
      assert multiset(filename) == multiset([h]) + multiset(t);
      assert multiset(SafeFilename(filename)) == multiset(kept) + multiset(SafeFilename(t));
      if h == c {
        assert multiset(kept)[c] == if c in Forbidden then 0 else 1;
      } else {
        assert multiset(kept)[c] == 0;
      }
    }
  }

  /** A name without forbidden characters is left as it is. */
  lemma {:induction false} SafeClean(filename: string)
    requires forall i :: 0 <= i < |filename| ==> filename[i] !in Forbidden
    ensures SafeFilename(filename) == filename
  {
    if filename != [] {
      SafeClean(filename[1..]);
      assert filename == [filename[0]] + filename[1..];
    }
  }

  /** Making a name safe twice changes nothing more. */
  lemma SafeIdempotent(filename: string)
    ensures SafeFilename(SafeFilename(filename)) == SafeFilename(filename)
  {
    SafeClean(SafeFilename(filename));
  }

  lemma SafeExample()
    ensures SafeFilename("a/b:c") == "abc"
  {
    SafeChar('a');
    SafeChar('/');
    SafeChar('b');
    SafeChar(':');
    SafeChar('c');
    SafeConcat("a", "/");
    SafeConcat("a/", "b");
    SafeConcat("a/b", ":");
    SafeConcat("a/b:", "c");
  }
}

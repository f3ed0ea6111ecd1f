/**
 * `Dictionary_read`, `Dictionary_get` and `Dictionary_get_random_word` of
 * main.c: the word list is read line by line, blank lines and `#` comments
 * are skipped, and the remaining lines form a singly linked list.
 */
module Dictionaries {
  import opened Wrappers
  import opened LineReading

  /** The dictionary file as `open` finds it. */
  datatype File = Unopenable | Readable(bytes: seq<char>)

  /** The two paths on which `Dictionary_read` makes the program exit. */
  datatype LoadError = CannotOpen | LineTooLong

  /** `lines` followed by the lines of `r`, or the error of `r`. */
  function Prepend(lines: seq<seq<char>>, r: Result<seq<seq<char>>, LoadError>): Result<seq<seq<char>>, LoadError>
  {
    match r
    case Success(rest) => Success(lines + rest)
    case Failure(e) => Failure(e)
  }

  /** The lines that successive calls of `read_line` return until end of input, or the error that stops them. */
  function SplitLines(s: seq<char>): (r: Result<seq<seq<char>>, LoadError>)
    ensures r.Success? ==> |r.value| <= |s|
    decreases |s|
  {
    var scan := NextLine(s);
    match scan.result
    case EndOfInput => Success([])
    case TooLong => Failure(LineTooLong)
    case Line(text) => Prepend([text], SplitLines(s[scan.used..]))
  }

  /** A text made of the given lines, each followed by a newline. */
  function JoinLines(lines: seq<seq<char>>): seq<char>
  {
    if lines == [] then [] else lines[0] + ['\n'] + JoinLines(lines[1..])
  }

  lemma PrependPrepend(a: seq<seq<char>>, b: seq<seq<char>>, r: Result<seq<seq<char>>, LoadError>)
    ensures Prepend(a, Prepend(b, r)) == Prepend(a + b, r)
  {
    if r.Success? {
      assert a + (b + r.value) == (a + b) + r.value;
    }
  }

  /** A well-formed line followed by a newline is read back as that line, before the lines of the rest. */
  lemma SplitFirstLine(l: seq<char>, t: seq<char>)
    requires WellFormedLine(l)
    ensures SplitLines(l + ['\n'] + t) == Prepend([l], SplitLines(t))
  {
    var u := l + ['\n'] + t;
    forall i | 0 <= i < |l|
      ensures u[i] != '\n'
    {
      assert u[i] == l[i];
    }
    ReadsUpToNewline(u, 0, |l|);
    assert u[..|l|] == l;
    assert CString(l) == l;
    assert u[|l| + 1..] == t;
  }

  /** Reading well-formed lines off the front of a text yields those lines, then whatever the rest yields. */
  lemma {:induction false} SplitAfterLines(lines: seq<seq<char>>, s: seq<char>)
    requires forall l :: l in lines ==> WellFormedLine(l)
    ensures SplitLines(JoinLines(lines) + s) == Prepend(lines, SplitLines(s))
  {
    if lines == [] {
      assert JoinLines(lines) + s == s;
      if SplitLines(s).Success? {
        assert lines + SplitLines(s).value == SplitLines(s).value;
      }
    } else {
      var l := lines[0];
      var t := JoinLines(lines[1..]) + s;
      assert JoinLines(lines) + s == l + ['\n'] + t;
      assert l in lines;
      SplitFirstLine(l, t);
      SplitAfterLines(lines[1..], s);
      PrependPrepend([l], lines[1..], SplitLines(s));
      assert [l] + lines[1..] == lines;
    }
  }

  /** Lines that all end in a newline, followed by an unterminated tail, read back as exactly those lines. */
  lemma SplitJoinRoundTrip(lines: seq<seq<char>>, tail: seq<char>)
    requires forall l :: l in lines ==> WellFormedLine(l)
    requires '\n' !in tail && |tail| < BufferSize
    ensures SplitLines(JoinLines(lines) + tail) == Success(lines)
  {
    SplitAfterLines(lines, tail);
    DropsUnterminatedLine(tail, 0);
    assert lines + [] == lines;
  }

  /** An overlong line after well-formed ones makes the whole load fail. */
  lemma SplitRejectsLongLine(lines: seq<seq<char>>, s: seq<char>)
    requires forall l :: l in lines ==> WellFormedLine(l)
    requires |s| >= BufferSize && forall i :: 0 <= i < BufferSize ==> s[i] != '\n'
    ensures SplitLines(JoinLines(lines) + s) == Failure(LineTooLong)
  {
    SplitAfterLines(lines, s);
    RejectsLongLine(s, 0);
  }

  /** Every line that is read is well formed: in particular it is at most 255 bytes long. */
  lemma {:induction false} SplitLinesWellFormed(s: seq<char>)
    ensures SplitLines(s).Success? ==> forall l :: l in SplitLines(s).value ==> WellFormedLine(l)
    decreases |s|
  {
    var scan := NextLine(s);
    if scan.result.Line? {
      SplitLinesWellFormed(s[scan.used..]);
    }
  }

  /** A line becomes a word unless it is empty or starts with `#`. */
  predicate IsWord(line: seq<char>)
  {
    line != [] && line[0] != '#'
  }

  /** The words among `lines`, in order. */
  function KeptLines(lines: seq<seq<char>>): (r: seq<seq<char>>)
    ensures |r| <= |lines|
    ensures forall w :: w in r ==> IsWord(w)
  {
    if lines == [] then []
    else
      var last := lines[|lines| - 1];
      KeptLines(lines[..|lines| - 1]) + (if IsWord(last) then [last] else [])
  }

  /** Keeping words commutes with concatenation, so the words stay in file order. */
  lemma {:induction false} KeptLinesAppend(a: seq<seq<char>>, b: seq<seq<char>>)
    ensures KeptLines(a + b) == KeptLines(a) + KeptLines(b)
    decreases |b|
  {
    if b == [] {
      assert a + b == a;
    } else {
      var b' := b[..|b| - 1];
      assert (a + b)[..|a + b| - 1] == a + b';
      KeptLinesAppend(a, b');
    }
  }

  /** A line is kept exactly when it occurs among `lines` and is a word. */
  lemma {:induction false} KeptLinesMembership(lines: seq<seq<char>>)
    ensures forall w :: w in KeptLines(lines) <==> w in lines && IsWord(w)
  {
    if lines != [] {
      var init := lines[..|lines| - 1];
      KeptLinesMembership(init);
      assert lines == init + [lines[|lines| - 1]];
    }
  }

  /** The words `Dictionary_read` loads from a file, or the reason it stops the program. */
  function LoadDictionary(file: File): (r: Result<seq<seq<char>>, LoadError>)
    ensures r.Success? ==> file.Readable? && |r.value| <= |file.bytes|
    ensures r.Success? ==> forall w :: w in r.value ==> IsWord(w)
  {
    match file
    case Unopenable => Failure(CannotOpen)
    case Readable(bytes) =>
      match SplitLines(bytes)
      case Success(lines) => Success(KeptLines(lines))
      case Failure(e) => Failure(e)
  }

  /** Every loaded word is a non-empty, NUL-free line of at most 255 bytes that does not start with `#`. */
  lemma LoadedWordsAreWellFormed(file: File)
    ensures LoadDictionary(file).Success? ==>
      forall w :: w in LoadDictionary(file).value ==> WellFormedLine(w) && IsWord(w)
  {
    if file.Readable? {
      SplitLinesWellFormed(file.bytes);
      if SplitLines(file.bytes).Success? {
        KeptLinesMembership(SplitLines(file.bytes).value);
      }
    }
  }

  /** The example word list: a blank line and a comment are left out. */
  lemma LoadsExampleDictionary()
    ensures LoadDictionary(Readable("apple\n\n# comment\nbanana\n")) == Success(["apple", "banana"])
  {
    ExampleLines();
    ExampleWords();
  }

  lemma ExampleLines()
    ensures SplitLines("apple\n\n# comment\nbanana\n") == Success(["apple", "", "# comment", "banana"])
  {
    var lines := ["apple", "", "# comment", "banana"];
    assert lines[1..] == ["", "# comment", "banana"];
    assert lines[2..] == ["# comment", "banana"];
    assert lines[3..] == ["banana"];
    assert lines[4..] == [];
    assert JoinLines(lines[3..]) == "banana\n";
    assert JoinLines(lines[2..]) == "# comment\n" + "banana\n";
    assert JoinLines(lines[1..]) == "\n" + "# comment\n" + "banana\n";
    assert JoinLines(lines) + [] == "apple\n\n# comment\nbanana\n";
    forall l | l in lines
      ensures WellFormedLine(l)
    {
    }
    SplitJoinRoundTrip(lines, []);
  }

  lemma ExampleWords()
    ensures KeptLines(["apple", "", "# comment", "banana"]) == ["apple", "banana"]
  {
    var lines := ["apple", "", "# comment", "banana"];
    assert lines[..3] == ["apple", "", "# comment"];
    assert lines[..2] == ["apple", ""];
    assert lines[..1] == ["apple"];
    assert lines[..0] == [];
    assert KeptLines(lines[..1]) == ["apple"];
    assert KeptLines(lines[..2]) == ["apple"];
    assert lines[..3][..2] == lines[..2] && !IsWord(lines[2]);
    assert KeptLines(lines[..3]) == ["apple"];
  }

  /** A file holding only a comment loads successfully as a dictionary with no word. */
  lemma CommentOnlyDictionaryIsEmpty()
    ensures LoadDictionary(Readable("# mots\n")) == Success([])
  {
    var lines := ["# mots"];
    assert lines[1..] == [];
    assert JoinLines(lines) + [] == "# mots\n";
    assert lines[0] in lines && WellFormedLine(lines[0]);
    SplitJoinRoundTrip(lines, []);
    assert lines[..0] == [];
    assert !IsWord(lines[0]);
    assert KeptLines(lines) == [];
  }

  /** A `DictionaryEntry` chain; `Nil` is the NULL that closes the list. */
  datatype Entry = Nil | Node(word: seq<char>, next: Entry)

  /** The words of a chain, in link order. */
  function Entries(e: Entry): seq<seq<char>>
  {
    match e
    case Nil => []
    case Node(w, next) => [w] + Entries(next)
  }

  /** The chain with a new last node holding `w`: what `*tail = current` achieves. */
  function Append(e: Entry, w: seq<char>): (r: Entry)
    ensures Entries(r) == Entries(e) + [w]
  {
    match e
    case Nil => Node(w, Nil)
    case Node(x, next) => Node(x, Append(next, w))
  }

  /** `Dictionary`: the head of the chain and its length. */
  datatype Dictionary = Dictionary(head: Entry, len: nat)
  {
    predicate Valid()
    {
      len == |Entries(head)|
    }

    function Words(): seq<seq<char>>
    {
      Entries(head)
    }
  }

  /** `Dictionary_read`: reads the file line by line and links every word, in order. */
  method DictionaryRead(file: File) returns (r: Result<Dictionary, LoadError>)
    ensures r.Success? <==> LoadDictionary(file).Success?
    ensures r.Success? ==> r.value.Valid() && r.value.Words() == LoadDictionary(file).value
    ensures r.Failure? ==> r.error == LoadDictionary(file).error
  {
    if file.Unopenable? {
      return Failure(CannotOpen);
    }
    var reader := new LineReader(file.bytes);
    var head := Nil;
    var len := 0;
    ghost var lines: seq<seq<char>> := [];
    match SplitLines(file.bytes) {
      case Success(all) => assert lines + all == all;
      case Failure(_) =>
    }
    while true
      invariant fresh(reader) && fresh(reader.buffer) && reader.Valid()
      invariant SplitLines(file.bytes) == Prepend(lines, SplitLines(reader.remaining))
      invariant Entries(head) == KeptLines(lines) && len == |Entries(head)|
      decreases |reader.remaining|
    {
      ghost var before := reader.remaining;
      var line := reader.ReadLine();
      if line.EndOfInput? {
        assert lines + [] == lines;
        break;
      }
      if line.TooLong? {
        return Failure(LineTooLong);
      }
      var text := line.text;
      assert SplitLines(before) == Prepend([text], SplitLines(reader.remaining));
      PrependPrepend(lines, [text], SplitLines(reader.remaining));
      assert (lines + [text])[..|lines|] == lines;
      lines := lines + [text];
      if text == [] || text[0] == '#' {
        // Empty lines and comments are skipped.
        continue;
      }
      head := Append(head, text);
      len := len + 1;
    }
    return Success(Dictionary(head, len));
  }

  /** `Dictionary_get`: follows `index` links from the head. */
  method Get(d: Dictionary, index: nat) returns (w: seq<char>)
    requires d.Valid() && index < d.len
    ensures w == d.Words()[index]
  {
    var entry := d.head;
    var i: nat := index;
    while i != 0
      invariant i <= index && i < |Entries(entry)|
      invariant Entries(entry) == d.Words()[index - i..]
      decreases i
    {
      entry := entry.next;
      i := i - 1;
    }
    w := entry.word;
  }

  /**
   * `Dictionary_get_random_word` as written: `rand` is the value `rand()`
   * returned, and the index is `rand % len`, which is defined only for a
   * non-empty dictionary.
   */
  method GetRandomWord(d: Dictionary, rand: nat) returns (w: seq<char>)
    requires d.Valid() && d.len > 0
    ensures w in d.Words() && w == d.Words()[rand % d.len]
  {
    w := Get(d, rand % d.len);
  }

  /** Word selection that reports an empty dictionary instead of dividing by zero. */
  method SelectWord(d: Dictionary, rand: nat) returns (w: Option<seq<char>>)
    requires d.Valid()
    ensures w.None? <==> d.Words() == []
    ensures w.Some? ==> w.value in d.Words() && w.value == d.Words()[rand % |d.Words()|]
  {
    if d.len == 0 {
      return None;
    }
    var word := GetRandomWord(d, rand);
    return Some(word);
  }
}

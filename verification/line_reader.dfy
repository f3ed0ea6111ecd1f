/**
 * `read_line` of main.c: reads a file one byte at a time into a static
 * 256-byte buffer until a newline, and hands back the bytes before it.
 * The open file is modelled by the sequence of bytes that `read` has not
 * returned yet; every `char` stands for one byte.
 */
module LineReading {
  /** `sizeof(BUFFER)`: a line may not fill the whole buffer. */
  const BufferSize: nat := 256

  /** What one call of `read_line` yields; `TooLong` is the path on which the program exits. */
  datatype LineRead = Line(text: seq<char>) | EndOfInput | TooLong

  /** The outcome of one call together with the number of bytes it consumed. */
  datatype Scan = Scan(result: LineRead, used: nat)

  /** A line as `read_line` can return it: no newline, no NUL, shorter than the buffer. */
  predicate WellFormedLine(line: seq<char>)
  {
    '\n' !in line && '\0' !in line && |line| < BufferSize
  }

  /** What `strcpy` copies out of a buffer: the bytes before the first NUL. */
  function CString(s: seq<char>): (r: seq<char>)
    ensures r <= s && '\0' !in r
    ensures |r| < |s| ==> s[|r|] == '\0'
  {
    if s == [] || s[0] == '\0' then [] else [s[0]] + CString(s[1..])
  }

  /**
   * The loop of `read_line`, from the point where the `k` bytes `s[..k]`,
   * none of them a newline, are already in the buffer.
   */
  function ScanLine(s: seq<char>, k: nat): (r: Scan)
    requires k <= |s| && k < BufferSize
    requires forall i :: 0 <= i < k ==> s[i] != '\n'
    ensures k <= r.used <= |s| && r.used <= BufferSize
    ensures r.result.Line? ==> k < r.used && WellFormedLine(r.result.text)
    ensures r.result.Line? ==> s[r.used - 1] == '\n' && r.result.text == CString(s[..r.used - 1])
    ensures r.result.Line? ==> forall i :: 0 <= i < r.used - 1 ==> s[i] != '\n'
    ensures r.result.EndOfInput? ==> r.used == |s| < BufferSize && forall i :: 0 <= i < |s| ==> s[i] != '\n'
    ensures r.result.TooLong? ==> r.used == BufferSize && forall i :: 0 <= i < BufferSize ==> s[i] != '\n'
    decreases |s| - k
  {
    if k == |s| then Scan(EndOfInput, k)
    else if s[k] == '\n' then Scan(Line(CString(s[..k])), k + 1)
    else if k + 1 >= BufferSize then Scan(TooLong, k + 1)
    else ScanLine(s, k + 1)
  }

  /** One call of `read_line` on the unread bytes `s`. */
  function NextLine(s: seq<char>): Scan
  {
    ScanLine(s, 0)
  }

  /** A newline among the first 256 bytes ends the line: the text is what precedes it, cut at a NUL. */
  lemma {:induction false} ReadsUpToNewline(s: seq<char>, k: nat, n: nat)
    requires k <= n < BufferSize && n < |s| && s[n] == '\n'
    requires forall i :: 0 <= i < n ==> s[i] != '\n'
    ensures ScanLine(s, k) == Scan(Line(CString(s[..n])), n + 1)
    decreases n - k
  {
    if k < n {
      ReadsUpToNewline(s, k + 1, n);
    }
  }

  /** 256 bytes without a newline are refused, whatever follows them. */
  lemma {:induction false} RejectsLongLine(s: seq<char>, k: nat)
    requires k < BufferSize <= |s|
    requires forall i :: 0 <= i < BufferSize ==> s[i] != '\n'
    ensures ScanLine(s, k) == Scan(TooLong, BufferSize)
    decreases BufferSize - k
  {
    if k + 1 < BufferSize {
      RejectsLongLine(s, k + 1);
    }
  }

  /** A final line without a newline is not returned: the call reports end of input. */
  lemma {:induction false} DropsUnterminatedLine(s: seq<char>, k: nat)
    requires k <= |s| < BufferSize
    requires forall i :: 0 <= i < |s| ==> s[i] != '\n'
    ensures ScanLine(s, k) == Scan(EndOfInput, |s|)
    decreases |s| - k
  {
    if k < |s| {
      DropsUnterminatedLine(s, k + 1);
    }
  }

  class LineReader {
    /** The bytes of the open file that `read` has not returned yet. */
    var remaining: seq<char>
    /** The static `BUFFER` of `read_line`, shared by every call. */
    const buffer: array<char>

    ghost predicate Valid()
      reads this
    {
      buffer.Length == BufferSize
    }

    constructor (contents: seq<char>)
      ensures Valid() && remaining == contents && fresh(buffer)
    {
      remaining := contents;
      buffer := new char[BufferSize](_ => '\0');
    }

    /** `read_line`: consumes one line and returns it, or reports end of input or an overlong line. */
    method ReadLine() returns (line: LineRead)
      requires Valid()
      modifies this, buffer
      ensures Valid()
      ensures line == NextLine(old(remaining)).result
      ensures remaining == old(remaining)[NextLine(old(remaining)).used..]
    {
      ghost var input := remaining;
      var index := 0;
      while remaining != []
        invariant index < BufferSize && index <= |input|
        invariant remaining == input[index..]
        invariant buffer[..index] == input[..index]
        invariant forall i :: 0 <= i < index ==> input[i] != '\n'
        invariant ScanLine(input, index) == NextLine(input)
        decreases |remaining|
      {
        buffer[index] := remaining[0];
        remaining := remaining[1..];
        if buffer[index] == '\n' {
          buffer[index] := '\0';
          line := Line(CString(buffer[..index]));
          return;
        }
        index := index + 1;
        if index >= BufferSize {
          line := TooLong;
          return;
        }
      }
      line := EndOfInput;
    }
  }
}

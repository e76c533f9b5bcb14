/** NUL-terminated strings as C code sees them: a value holds the characters
    before the terminator, and the terminator sits at index |s|. */
module CStrings {

  type CString = s: string | '\0' !in s

  datatype Option<+T> = None | Some(value: T)

  /** The character a C program reads at s[i]. Reading past the terminator is
      not defined, so every call proves that the read stays inside the string. */
  function At(s: CString, i: nat): (c: char)
    requires i <= |s|
    ensures c == '\0' <==> i == |s|
  {
    if i == |s| then '\0' else s[i]
  }

  /** strchr(str, ch) != NULL for a character other than the terminator. */
  predicate IsInSet(ch: char, str: string) {
    ch != '\0' && ch in str
  }

  /** The C string held by a buffer: everything before its first NUL. */
  function StringIn(buffer: seq<char>): CString
    requires '\0' in buffer
  {
    if buffer[0] == '\0' then "" else [buffer[0]] + StringIn(buffer[1..])
  }

  lemma {:induction false} StringInBuffer(s: CString, junk: seq<char>)
    ensures StringIn(s + ['\0'] + junk) == s
  {
    if s == "" {
      assert (s + ['\0'] + junk)[0] == '\0';
    } else {
      assert (s + ['\0'] + junk)[1..] == s[1..] + ['\0'] + junk;
      StringInBuffer(s[1..], junk);
      assert (s + ['\0'] + junk)[|s|] == '\0';
    }
  }

  /** strchr: the index of the first c, or the length when there is none. */
  function IndexOf(s: string, c: char): (i: nat)
    ensures i <= |s| && c !in s[..i]
    ensures i < |s| ==> s[i] == c
  {
    if s == "" || s[0] == c then 0
    else
      assert s[..1 + IndexOf(s[1..], c)] == [s[0]] + s[1..][..IndexOf(s[1..], c)];
      1 + IndexOf(s[1..], c)
  }

  lemma {:induction false} IndexOfUnique(s: string, c: char, i: nat)
    requires i <= |s| && c !in s[..i] && (i < |s| ==> s[i] == c)
    ensures IndexOf(s, c) == i
  {
    if i > 0 {
      assert s[0] in s[..i];
      assert s[1..][..i - 1] == s[..i][1..];
      IndexOfUnique(s[1..], c, i - 1);
    }
  }

  /** The fields of s between the occurrences of a delimiter. */
  function Fields(s: string, delimiter: char): (fields: seq<string>)
    ensures |fields| > 0
  {
    if s == "" then [""]
    else Prepend(s[0], delimiter, Fields(s[1..], delimiter))
  }

  // The fields of a text from those of the text after its first character.
  function Prepend(c: char, delimiter: char, fields: seq<string>): seq<string>
    requires |fields| > 0
  {
    if c == delimiter then [""] + fields else [[c] + fields[0]] + fields[1..]
  }

  lemma PrependConcat(c: char, delimiter: char, f: seq<string>, g: seq<string>)
    requires |f| > 0
    ensures Prepend(c, delimiter, f + g) == Prepend(c, delimiter, f) + g
  {
  }

  /** Joining with the delimiter concatenates the field lists. */
  lemma {:induction false} FieldsJoin(s: string, t: string, delimiter: char)
    ensures Fields(s + [delimiter] + t, delimiter) == Fields(s, delimiter) + Fields(t, delimiter)
  {
    var whole := s + [delimiter] + t;
    if s == "" {
      assert whole[1..] == t;
    } else {
      FieldsJoin(s[1..], t, delimiter);
      assert whole[0] == s[0] && whole[1..] == s[1..] + [delimiter] + t;
      PrependConcat(s[0], delimiter, Fields(s[1..], delimiter), Fields(t, delimiter));
    }
  }

  lemma {:induction false} FieldsNone(s: string, delimiter: char)
    requires delimiter !in s
    ensures Fields(s, delimiter) == [s]
  {
    if s != "" {
      FieldsNone(s[1..], delimiter);
      assert s == [s[0]] + s[1..];
    }
  }

  // The first field ends at the first delimiter.
  lemma FieldsFirst(s: string, delimiter: char)
    ensures var i := IndexOf(s, delimiter);
            Fields(s, delimiter) == if i == |s| then [s] else [s[..i]] + Fields(s[i + 1..], delimiter)
  {
    var i := IndexOf(s, delimiter);
    FieldsNone(s[..i], delimiter);
    if i == |s| {
      assert s[..i] == s;
    } else {
      FieldsJoin(s[..i], s[i + 1..], delimiter);
      assert s == s[..i] + [delimiter] + s[i + 1..];
    }
  }
}

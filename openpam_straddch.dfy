// openpam_straddch: append a character to a growable NUL-terminated
// buffer, described by the string pointer, its allocated size and the
// length of the text in it. Failing allocations are the parameters
// `mallocOk` and `reallocOk`; the log line on failure is left out.

module OpenpamStraddch {

  /** The buffer and the two counters the caller passes by reference. */
  class StrBuf {
    var str: array?<char>
    var size: nat
    var len: nat

    /** An allocated buffer holds `size` characters: the text, then a NUL. */
    predicate Valid()
      reads this, str
    {
      str != null ==> str.Length == size && len < size && str[len] == '\0'
    }

    /** The text in the buffer; nothing before the first allocation. */
    function Text(): seq<char>
      reads this, str
      requires Valid()
    {
      if str == null then [] else str[..len]
    }

    /** A caller's empty start: a NULL string. */
    constructor ()
      ensures Valid() && str == null && Text() == []
    {
      str := null;
      size := 0;
      len := 0;
    }

    /**
     * openpam_straddch(&str, &size, &len, ch). A NULL string is first
     * allocated with 32 characters and the length reset to 0; a full one
     * (len >= size - 1) is reallocated at twice the size. On success (0)
     * the text gains `ch` at its end and is NUL-terminated; on failure
     * (-1) the string is NULL: a failing realloc frees it, and the size
     * was already updated.
     */
    method AddChar(ch: char, mallocOk: bool, reallocOk: bool) returns (r: int)
      requires Valid()
      modifies this, str
      ensures Valid()
      ensures r == 0 || r == -1
      ensures r == 0 <==> if old(str) == null then mallocOk else old(len) < old(size) - 1 || reallocOk
      ensures size == if old(str) == null then 32 else if old(len) >= old(size) - 1 then 2 * old(size) else old(size)
      ensures r == 0 ==> str != null && Text() == old(Text()) + [ch] && len < size && str[len] == '\0'
      ensures r == -1 ==> str == null
    {
      if str == null {
        size := 32;
        if !mallocOk {
          return -1;
        }
        str := new char[32];
        len := 0;
      } else if len >= size - 1 {
        size := size * 2;
        if !reallocOk {
          str := null;
          return -1;
        }
        var text := str[..len];
        var tmp := new char[size](k => if 0 <= k < |text| then text[k] else '\0');
        str := tmp;
      }
      ghost var before := str[..len];
      str[len] := ch;
      len := len + 1;
      str[len] := '\0';
      assert str[..len] == before + [ch];
      return 0;
    }
  }
}

/** The lower-cased extension of a file path, which decides how an image
    file is decoded. */
module FileExtension {

  datatype Option<T> = None | Some(value: T)

  /** The position of the last occurrence of `c` in `s`, if any. */
  function LastIndexOf(s: string, c: char): (r: Option<nat>)
    ensures r.None? <==> c !in s
    ensures r.Some? ==> r.value < |s| && s[r.value] == c && c !in s[r.value + 1..]
  {
    if |s| == 0 then None
    else if s[|s| - 1] == c then Some(|s| - 1)
    else LastIndexOf(s[..|s| - 1], c)
  }

  predicate IsUpper(ch: char)
  {
    'A' <= ch <= 'Z'
  }

  /** The C-locale lower-case of a character: only 'A' .. 'Z' change. */
  function ToLowerChar(ch: char): (l: char)
    ensures !IsUpper(l)
    ensures !IsUpper(ch) ==> l == ch
    ensures IsUpper(ch) ==> 'a' <= l <= 'z' && l as int - 'a' as int == ch as int - 'A' as int
  {
    if IsUpper(ch) then (ch as int - 'A' as int + 'a' as int) as char else ch
  }

  /** Lower-cases every character of `s`. */
  function ToLower(s: string): (t: string)
    ensures |t| == |s|
    ensures forall i :: 0 <= i < |s| ==> t[i] == ToLowerChar(s[i]) && !IsUpper(t[i])
  {
    seq(|s|, i requires 0 <= i < |s| => ToLowerChar(s[i]))
  }

  /** The text after the last '.', lower-cased; empty when there is no '.'. */
  function GetFileExtension(path: string): (ext: string)
    ensures '.' !in path ==> ext == ""
    ensures '.' in path ==>
              |ext| < |path| && path[|path| - |ext| - 1] == '.' &&
              ext == ToLower(path[|path| - |ext|..])
    ensures '.' !in ext
    ensures ToLower(ext) == ext
  {
    match LastIndexOf(path, '.')
    case None => ""
    case Some(dot) => ToLower(path[dot + 1..])
  }
}

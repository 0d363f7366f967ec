/** The file-name helpers the store relies on: the extension recorded with
    every new file row (POSIX `path.extname`), and the file-name sanitiser
    the server defines. */
module PathNames {

  /** The index of the last occurrence of `c` in `s`, or -1 when there is none. */
  function LastIndexOf(s: string, c: char): (k: int)
    ensures -1 <= k < |s|
  {
    if s == [] then -1
    else if s[|s| - 1] == c then |s| - 1
    else LastIndexOf(s[..|s| - 1], c)
  }

  /** -1 exactly when `c` does not occur; otherwise a position of `c` with
      no `c` after it. */
  lemma {:induction false} LastIndexOfFound(s: string, c: char)
    ensures LastIndexOf(s, c) == -1 <==> c !in s
    ensures 0 <= LastIndexOf(s, c) ==> s[LastIndexOf(s, c)] == c && c !in s[LastIndexOf(s, c) + 1..]
  {
    if s != [] && s[|s| - 1] != c {
      assert s == s[..|s| - 1] + [s[|s| - 1]];
      LastIndexOfFound(s[..|s| - 1], c);
    }
  }

  /** `path` without the slashes it ends with. */
  function TrimTrailingSlashes(path: string): (t: string)
    ensures |t| <= |path|
  {
    if path != [] && path[|path| - 1] == '/' then TrimTrailingSlashes(path[..|path| - 1])
    else path
  }

  /** Trimming keeps a prefix, drops only slashes, and leaves no slash at the end. */
  lemma {:induction false} TrimTrailingSlashesShape(path: string)
    ensures TrimTrailingSlashes(path) <= path
    ensures TrimTrailingSlashes(path) == [] || TrimTrailingSlashes(path)[|TrimTrailingSlashes(path)| - 1] != '/'
    ensures forall k :: |TrimTrailingSlashes(path)| <= k < |path| ==> path[k] == '/'
  {
    if path != [] && path[|path| - 1] == '/' {
      TrimTrailingSlashesShape(path[..|path| - 1]);
    }
  }

  /** The last component of a POSIX path (trailing slashes ignored). */
  function BaseName(path: string): (base: string)
    ensures |base| <= |TrimTrailingSlashes(path)|
  {
    var t := TrimTrailingSlashes(path);
    t[LastIndexOf(t, '/') + 1..]
  }

  /** The last component holds no slash and ends the trimmed path. */
  lemma BaseNameShape(path: string)
    ensures '/' !in BaseName(path)
    ensures BaseName(path) == TrimTrailingSlashes(path)[|TrimTrailingSlashes(path)| - |BaseName(path)|..]
  {
    LastIndexOfFound(TrimTrailingSlashes(path), '/');
  }

  /** The last component is all of what follows the trimmed path's last
      slash: it starts the trimmed path or comes right after a slash. */
  lemma BaseNameWhole(path: string)
    ensures var t := TrimTrailingSlashes(path);
      |BaseName(path)| == |t| || t[|t| - |BaseName(path)| - 1] == '/'
  {
    LastIndexOfFound(TrimTrailingSlashes(path), '/');
  }

  /** POSIX `path.extname`: the last component's suffix from its last dot,
      or the empty string when that component has no dot after its first
      character, or is "..". */
  function ExtName(path: string): (ext: string)
    ensures |ext| <= |BaseName(path)|
  {
    var base := BaseName(path);
    var dot := LastIndexOf(base, '.');
    if dot <= 0 || base == ".." then "" else base[dot..]
  }

  /** An extension is empty, or a dot followed by no other dot and no
      slash, and it ends the last component. */
  lemma ExtNameShape(path: string)
    ensures var ext := ExtName(path);
      ext == [] || (ext[0] == '.' && '.' !in ext[1..] && '/' !in ext)
    ensures ExtName(path) == BaseName(path)[|BaseName(path)| - |ExtName(path)|..]
  {
    var base := BaseName(path);
    var dot := LastIndexOf(base, '.');
    if 0 < dot && base != ".." {
      LastIndexOfFound(base, '.');
      BaseNameShape(path);
      assert base[dot..][1..] == base[dot + 1..];
    }
  }

  /** A name has an extension exactly when its last component has a dot
      after its first character and is not "..". */
  lemma ExtNameExists(path: string)
    ensures ExtName(path) != [] <==>
      BaseName(path) != ".." && BaseName(path) != [] && '.' in BaseName(path)[1..]
  {
    var base := BaseName(path);
    var dot := LastIndexOf(base, '.');
    LastIndexOfFound(base, '.');
    if dot == 0 {
      assert base[1..] == base[dot + 1..];
    } else if dot > 0 {
      assert base[1..][dot - 1] == '.';
    }
  }

  /** The characters the sanitiser keeps: ASCII letters and digits, '.', '-' and '_'. */
  predicate SafeChar(c: char) {
    || 'a' <= c <= 'z'
    || 'A' <= c <= 'Z'
    || '0' <= c <= '9'
    || c == '.' || c == '-' || c == '_'
  }

  /** `sanitizeFilename`: every character outside the safe set becomes '_'. */
  function SanitizeFilename(name: string): (safe: string)
    ensures |safe| == |name|
    ensures forall k :: 0 <= k < |safe| ==> SafeChar(safe[k])
    ensures forall k :: 0 <= k < |name| && SafeChar(name[k]) ==> safe[k] == name[k]
    ensures forall k :: 0 <= k < |name| && !SafeChar(name[k]) ==> safe[k] == '_'
  {
    seq(|name|, k requires 0 <= k < |name| => if SafeChar(name[k]) then name[k] else '_')
  }

  /** Sanitising a sanitised name changes nothing. */
  lemma SanitizeIdempotent(name: string)
    ensures SanitizeFilename(SanitizeFilename(name)) == SanitizeFilename(name)
  {
    var once := SanitizeFilename(name);
    var twice := SanitizeFilename(once);
    assert forall k :: 0 <= k < |twice| ==> twice[k] == once[k];
  }
}

/**
 * The cookie-backed storage adapter handed to the auth client
 * (src/lib/supabase.ts): `getItem` parses the `name=value; name=value`
 * cookie string, `setItem` and `removeItem` build the cookie assignments.
 * URI encoding and decoding and the date formatting are parameters.
 */
module CookieStorage {
  import opened Wrappers

  /** Seven days in milliseconds. */
  const Week := 7 * 24 * 60 * 60 * 1000
  const Epoch := "Thu, 01 Jan 1970 00:00:00 GMT"
  const PathAttribute := "path=/"
  const SameSiteAttribute := "SameSite=Lax"
  const Attributes := [';'] + (PathAttribute + [';'] + SameSiteAttribute)

  /** `s.split(sep)`: the pieces between separators, empty ones included. */
  function Split(s: string, sep: char): (parts: seq<string>)
    ensures |parts| >= 1
    decreases |s|
  {
    if s == [] then [""]
    else
      var rest := Split(s[1..], sep);
      if s[0] == sep then [""] + rest
      else [[s[0]] + rest[0]] + rest[1..]
  }

  /** No piece of a split holds the separator. */
  lemma {:induction false} SplitPiecesLackSeparator(s: string, sep: char)
    ensures forall k :: 0 <= k < |Split(s, sep)| ==> sep !in Split(s, sep)[k]
    decreases |s|
  {
    if s != [] {
      SplitPiecesLackSeparator(s[1..], sep);
      var rest := Split(s[1..], sep);
      if s[0] != sep {
        assert forall k :: 1 <= k < |Split(s, sep)| ==> Split(s, sep)[k] == rest[k];
        assert Split(s, sep)[0] == [s[0]] + rest[0];
      } else {
        assert forall k :: 1 <= k < |Split(s, sep)| ==> Split(s, sep)[k] == rest[k - 1];
      }
    }
  }

  /** `parts.join(sep)`. */
  function Join(parts: seq<string>, sep: char): string
    requires |parts| >= 1
    decreases |parts|
  {
    if |parts| == 1 then parts[0] else parts[0] + [sep] + Join(parts[1..], sep)
  }

  /** Joining the pieces of a split gives back the string. */
  lemma {:induction false} JoinSplit(s: string, sep: char)
    ensures Join(Split(s, sep), sep) == s
    decreases |s|
  {
    if s != [] {
      JoinSplit(s[1..], sep);
      var rest := Split(s[1..], sep);
      if s[0] != sep && |rest| > 1 {
        assert ([[s[0]] + rest[0]] + rest[1..])[1..] == rest[1..];
      }
      if s[0] == sep {
        assert ([""] + rest)[1..] == rest;
      }
    }
  }

  /** A string without the separator splits into itself. */
  lemma {:induction false} SplitNoSeparator(s: string, sep: char)
    requires sep !in s
    ensures Split(s, sep) == [s]
    decreases |s|
  {
    if s != [] {
      assert sep !in s[1..];
      SplitNoSeparator(s[1..], sep);
      assert [s[0]] + s[1..] == s;
    }
  }

  /** Splitting distributes over a separator. */
  lemma {:induction false} SplitAround(a: string, sep: char, b: string)
    ensures Split(a + [sep] + b, sep) == Split(a, sep) + Split(b, sep)
    decreases |a|
  {
    if a == [] {
      assert a + [sep] + b == [sep] + b;
      assert ([sep] + b)[1..] == b;
    } else {
      assert (a + [sep] + b)[1..] == a[1..] + [sep] + b;
      SplitAround(a[1..], sep, b);
    }
  }

  /** Splitting the joined pieces gives back the pieces, when none holds the separator. */
  lemma {:induction false} SplitJoin(parts: seq<string>, sep: char)
    requires |parts| >= 1
    requires forall k :: 0 <= k < |parts| ==> sep !in parts[k]
    ensures Split(Join(parts, sep), sep) == parts
    decreases |parts|
  {
    SplitNoSeparator(parts[0], sep);
    if |parts| > 1 {
      SplitJoin(parts[1..], sep);
      SplitAround(parts[0], sep, Join(parts[1..], sep));
      assert parts == [parts[0]] + parts[1..];
    }
  }

  /**
   * The first piece of a split is the text before the first separator; when
   * a separator follows it, the other pieces are the split of what comes after.
   */
  lemma {:induction false} SplitFirstPiece(s: string, sep: char)
    ensures var h := Split(s, sep)[0];
      sep !in h && |h| <= |s| && h == s[..|h|]
      && (|h| == |s| ==> Split(s, sep) == [s])
      && (|h| < |s| ==> s[|h|] == sep && Split(s, sep) == [h] + Split(s[|h| + 1..], sep))
    decreases |s|
  {
    if s != [] {
      SplitFirstPiece(s[1..], sep);
      var rest := Split(s[1..], sep);
      if s[0] == sep {
        assert Split(s, sep) == [""] + rest;
        assert s[0 + 1..] == s[1..];
      } else {
        var h' := rest[0];
        var h := [s[0]] + h';
        assert Split(s, sep) == [h] + rest[1..];
        assert s[..|h|] == [s[0]] + s[1..][..|h'|];
        if |h'| == |s| - 1 {
          assert rest == [s[1..]];
          assert h == s;
        } else {
          assert s[|h|] == s[1..][|h'|];
          assert s[1..][|h'| + 1..] == s[|h| + 1..];
        }
      }
    }
  }

  /**
   * A split has a second piece exactly when the separator occurs; that piece
   * is the text after the first separator, up to the next one or the end.
   */
  lemma SplitSecondPiece(t: string, sep: char)
    ensures |Split(t, sep)| >= 2 <==> sep in t
    ensures |Split(t, sep)| >= 2 ==> var n, v := |Split(t, sep)[0]|, Split(t, sep)[1];
      n + 1 + |v| <= |t| && v == t[n + 1..n + 1 + |v|] && sep !in v
      && (n + 1 + |v| < |t| ==> t[n + 1 + |v|] == sep)
  {
    SplitFirstPiece(t, sep);
    var p := Split(t, sep);
    if |p| >= 2 {
      var n := |p[0]|;
      SplitFirstPiece(t[n + 1..], sep);
      var v := p[1];
      assert t[n + 1..][..|v|] == t[n + 1..n + 1 + |v|];
    } else {
      assert t == p[0];
    }
  }

  /** ECMAScript white space and line terminators, the characters `trim` removes. */
  predicate IsSpace(c: char) {
    c == '\t' || c == '\n' || c == '\U{000B}' || c == '\U{000C}' || c == '\r' || c == ' '
    || c == '\U{00A0}' || c == '\U{1680}' || ('\U{2000}' <= c <= '\U{200A}')
    || c == '\U{2028}' || c == '\U{2029}' || c == '\U{202F}' || c == '\U{205F}'
    || c == '\U{3000}' || c == '\U{FEFF}'
  }

  function TrimStart(s: string): string
    decreases |s|
  {
    if s != [] && IsSpace(s[0]) then TrimStart(s[1..]) else s
  }

  function TrimEnd(s: string): string
    decreases |s|
  {
    if s != [] && IsSpace(s[|s| - 1]) then TrimEnd(s[..|s| - 1]) else s
  }

  /** `TrimStart` removes exactly the leading white space. */
  lemma {:induction false} TrimStartRemovesLeadingSpace(s: string)
    ensures var r := TrimStart(s);
      |r| <= |s| && r == s[|s| - |r|..] && (r == [] || !IsSpace(r[0]))
      && forall k :: 0 <= k < |s| - |r| ==> IsSpace(s[k])
    decreases |s|
  {
    if s != [] && IsSpace(s[0]) {
      TrimStartRemovesLeadingSpace(s[1..]);
      var r := TrimStart(s);
      assert forall k :: 1 <= k < |s| - |r| ==> s[k] == s[1..][k - 1];
    }
  }

  /** `TrimEnd` removes exactly the trailing white space. */
  lemma {:induction false} TrimEndRemovesTrailingSpace(s: string)
    ensures var r := TrimEnd(s);
      |r| <= |s| && r == s[..|r|] && (r == [] || !IsSpace(r[|r| - 1]))
      && forall k :: |r| <= k < |s| ==> IsSpace(s[k])
    decreases |s|
  {
    if s != [] && IsSpace(s[|s| - 1]) {
      TrimEndRemovesTrailingSpace(s[..|s| - 1]);
    }
  }

  /**
   * `s.trim()`: the part of `s` left after removing all white space at both
   * ends; it neither starts nor ends with white space.
   */
  function Trim(s: string): (r: string)
    ensures r == [] || (!IsSpace(r[0]) && !IsSpace(r[|r| - 1]))
    ensures exists i :: TrimmedAt(s, r, i)
  {
    var u := TrimStart(s);
    TrimStartRemovesLeadingSpace(s);
    TrimEndRemovesTrailingSpace(u);
    var r := TrimEnd(u);
    var i := |s| - |u|;
    assert r == s[i..i + |r|];
    assert forall k :: i + |r| <= k < |s| ==> s[k] == u[k - i];
    assert r != [] ==> r[0] == u[0];
    assert TrimmedAt(s, r, i);
    r
  }

  /** `r` is `s` from index `i` on, with only white space before and after it. */
  predicate TrimmedAt(s: string, r: string, i: int) {
    0 <= i <= |s| - |r| && r == s[i..i + |r|]
    && (forall k :: 0 <= k < i ==> IsSpace(s[k]))
    && (forall k :: i + |r| <= k < |s| ==> IsSpace(s[k]))
  }

  /** Trim drops leading spaces and leaves a string without outer spaces alone. */
  lemma {:induction false} TrimPadded(pad: string, s: string)
    requires forall k :: 0 <= k < |pad| ==> IsSpace(pad[k])
    requires s == [] || (!IsSpace(s[0]) && !IsSpace(s[|s| - 1]))
    ensures Trim(pad + s) == s
    decreases |pad|
  {
    if pad == [] {
      assert pad + s == s;
    } else {
      assert (pad + s)[1..] == pad[1..] + s;
      TrimPadded(pad[1..], s);
    }
  }

  /** A pair `name=value` without further `=` splits into the name and the value. */
  lemma SplitPair(name: string, value: string)
    requires '=' !in name && '=' !in value
    ensures Split(name + "=" + value, '=') == [name, value]
  {
    assert name + "=" + value == name + ['='] + value;
    SplitAround(name, '=', value);
    SplitNoSeparator(name, '=');
    SplitNoSeparator(value, '=');
  }

  /** `const [k, v] = c.trim().split('=')`: the name, the trimmed entry up to its first `=`. */
  function EntryName(piece: string): (k: string)
    ensures '=' !in k && |k| <= |Trim(piece)| && k == Trim(piece)[..|k|]
    ensures |k| < |Trim(piece)| ==> Trim(piece)[|k|] == '='
  {
    SplitFirstPiece(Trim(piece), '=');
    Split(Trim(piece), '=')[0]
  }

  /**
   * ... and the value, the text between the first `=` and the next one or the
   * end; undefined when the entry has no `=`.
   */
  function EntryValue(piece: string): (v: Option<string>)
    ensures v.None? <==> '=' !in Trim(piece)
    ensures v.Some? ==> var t, n := Trim(piece), |EntryName(piece)|;
      n + 1 + |v.value| <= |t| && v.value == t[n + 1..n + 1 + |v.value|] && '=' !in v.value
      && (n + 1 + |v.value| < |t| ==> t[n + 1 + |v.value|] == '=')
  {
    var p := Split(Trim(piece), '=');
    SplitSecondPiece(Trim(piece), '=');
    if |p| >= 2 then Some(p[1]) else None
  }

  /** The reducer: a piece named `key` replaces the accumulator by its decoded value. */
  function Step(acc: string, piece: string, key: string, decode: string -> string): string {
    if EntryName(piece) == key then decode(EntryValue(piece).GetOr("")) else acc
  }

  /** `pieces.reduce(step, acc)`, left to right. */
  function Reduce(pieces: seq<string>, acc: string, key: string, decode: string -> string): string
    decreases |pieces|
  {
    if pieces == [] then acc else Reduce(pieces[1..], Step(acc, pieces[0], key, decode), key, decode)
  }

  /**
   * `storage.getItem(key)`: the decoded value of the last entry named `key`;
   * no such entry, or one whose decoded value is empty, gives `null`.
   */
  function GetItem(cookie: string, key: string, decode: string -> string): (r: Option<string>)
    ensures r.Some? ==> r.value != ""
    ensures LastMatch(Split(cookie, ';'), key).None? ==> r == None
    ensures LastMatch(Split(cookie, ';'), key).Some? ==>
      var d := decode(EntryValue(LastMatch(Split(cookie, ';'), key).value).GetOr(""));
      r == if d == "" then None else Some(d)
  {
    var found := Reduce(Split(cookie, ';'), "", key, decode);
    ReduceLastMatchWins(Split(cookie, ';'), "", key, decode);
    if found == "" then None else Some(found)
  }

  /**
   * `storage.setItem(key, value)` at time `nowMs`: the cookie assignment of
   * the pair `key=encode(value)`, an expiry seven days after `nowMs`, path `/`
   * and SameSite Lax.
   */
  function SetItem(key: string, value: string, nowMs: int, encode: string -> string, toUtc: int -> string): (assignment: string)
    ensures ';' !in key && ';' !in encode(value) && ';' !in toUtc(nowMs + 604800000) ==>
      Split(assignment, ';') ==
        [key + "=" + encode(value), "expires=" + toUtc(nowMs + 604800000), PathAttribute, SameSiteAttribute]
  {
    var pair, exp := key + "=" + encode(value), "expires=" + toUtc(nowMs + Week);
    if ';' in key || ';' in encode(value) || ';' in toUtc(nowMs + Week) then pair + [';'] + (exp + Attributes)
    else
      assert ';' !in pair && ';' !in exp;
      SplitAround(pair, ';', exp + Attributes);
      SplitNoSeparator(pair, ';');
      AttributeParts(exp);
      pair + [';'] + (exp + Attributes)
  }

  /** `storage.removeItem(key)`: the assignment of an empty value that expired at the epoch. */
  function RemoveItem(key: string): (assignment: string)
    ensures ';' !in key ==>
      Split(assignment, ';') == [key + "=", "expires=" + Epoch, PathAttribute, SameSiteAttribute]
  {
    var pair, exp := key + "=", "expires=" + Epoch;
    if ';' in key then pair + [';'] + (exp + Attributes)
    else
      assert ';' !in pair;
      assert ';' !in exp by {
        assert exp == "expires=" + Epoch;
      }
      SplitAround(pair, ';', exp + Attributes);
      SplitNoSeparator(pair, ';');
      AttributeParts(exp);
      pair + [';'] + (exp + Attributes)
  }

  /** The last piece whose name is `key`, searching from the end. */
  function LastMatch(pieces: seq<string>, key: string): Option<string>
    decreases |pieces|
  {
    if pieces == [] then None
    else if EntryName(pieces[|pieces| - 1]) == key then Some(pieces[|pieces| - 1])
    else LastMatch(pieces[..|pieces| - 1], key)
  }

  lemma {:induction false} ReduceSnoc(pieces: seq<string>, p: string, acc: string, key: string, decode: string -> string)
    ensures Reduce(pieces + [p], acc, key, decode) == Step(Reduce(pieces, acc, key, decode), p, key, decode)
    decreases |pieces|
  {
    if pieces == [] {
      assert [p][1..] == [];
    } else {
      assert (pieces + [p])[1..] == pieces[1..] + [p];
      ReduceSnoc(pieces[1..], p, Step(acc, pieces[0], key, decode), key, decode);
    }
  }

  /**
   * The last match wins: the fold yields the decoded value of the last piece
   * named `key`, or the starting accumulator when no piece is.
   */
  lemma {:induction false} ReduceLastMatchWins(pieces: seq<string>, acc: string, key: string, decode: string -> string)
    ensures Reduce(pieces, acc, key, decode) ==
      match LastMatch(pieces, key)
      case Some(p) => decode(EntryValue(p).GetOr(""))
      case None => acc
    decreases |pieces|
  {
    if pieces != [] {
      var init, last := pieces[..|pieces| - 1], pieces[|pieces| - 1];
      assert pieces == init + [last];
      ReduceSnoc(init, last, acc, key, decode);
      ReduceLastMatchWins(init, acc, key, decode);
    }
  }

  /** No `;`, no `=`, and no white space at either end. */
  predicate Plain(s: string) {
    ';' !in s && '=' !in s && (s == [] || (!IsSpace(s[0]) && !IsSpace(s[|s| - 1])))
  }

  /**
   * An entry is read by its text up to the first `=` and its value is the
   * text between the first and the second `=`; the rest is dropped.
   */
  lemma EntryFields(pad: string, name: string, value: string, rest: string)
    requires forall k :: 0 <= k < |pad| ==> IsSpace(pad[k])
    requires '=' !in name && '=' !in value
    requires name != [] && !IsSpace(name[0])
    requires rest == [] || !IsSpace(rest[|rest| - 1])
    ensures EntryName(pad + name + "=" + value + "=" + rest) == name
    ensures EntryValue(pad + name + "=" + value + "=" + rest) == Some(value)
  {
    var tail := value + ['='] + rest;
    var e := name + ['='] + tail;
    assert pad + name + "=" + value + "=" + rest == pad + e;
    assert e[0] == name[0] && e[|e| - 1] == (if rest == [] then '=' else rest[|rest| - 1]);
    TrimPadded(pad, e);
    SplitAround(name, '=', tail);
    SplitAround(value, '=', rest);
    SplitNoSeparator(name, '=');
    SplitNoSeparator(value, '=');
    var parts := Split(e, '=');
    assert parts == [name] + ([value] + Split(rest, '='));
    assert parts[0] == name && parts[1] == value;
  }

  /** The `name=value` entry of a plain name and a plain value. */
  lemma PlainEntry(pad: string, name: string, value: string)
    requires forall k :: 0 <= k < |pad| ==> IsSpace(pad[k])
    requires Plain(name) && Plain(value)
    ensures EntryName(pad + name + "=" + value) == name
    ensures EntryValue(pad + name + "=" + value) == Some(value)
  {
    var e := name + "=" + value;
    assert pad + name + "=" + value == pad + e;
    assert e[0] == (if name == [] then '=' else name[0]);
    assert e[|e| - 1] == (if value == [] then '=' else value[|value| - 1]);
    TrimPadded(pad, e);
    SplitPair(name, value);
  }

  /** The attributes after the expiry split into the path and the SameSite setting. */
  lemma AttributeParts(head: string)
    requires ';' !in head
    ensures Split(head + Attributes, ';') == [head, PathAttribute, SameSiteAttribute]
  {
    var path, site := PathAttribute, SameSiteAttribute;
    assert ';' !in path && ';' !in site;
    assert Attributes == [';'] + (path + [';'] + site);
    assert head + Attributes == head + [';'] + (path + [';'] + site);
    SplitAround(head, ';', path + [';'] + site);
    SplitAround(path, ';', site);
    SplitNoSeparator(head, ';');
    SplitNoSeparator(path, ';');
    SplitNoSeparator(site, ';');
  }

  /** The entry named `key` is `LastMatch` when nothing after it is named `key`. */
  lemma {:induction false} LastMatchOfTail(before: seq<string>, e: string, after: seq<string>, key: string)
    requires EntryName(e) == key
    requires forall k :: 0 <= k < |after| ==> EntryName(after[k]) != key
    ensures LastMatch(before + [e] + after, key) == Some(e)
    decreases |after|
  {
    var all := before + [e] + after;
    if after != [] {
      assert all[..|all| - 1] == before + [e] + after[..|after| - 1];
      assert all[|all| - 1] == after[|after| - 1];
      LastMatchOfTail(before, e, after[..|after| - 1], key);
    }
  }

  /**
   * Reading a cookie string whose last entry named `key` is `e` gives the
   * decoded value of `e`, or `null` when that is empty.
   */
  lemma GetItemOfLastEntry(cookie: string, before: seq<string>, e: string, after: seq<string>,
                           key: string, decode: string -> string)
    requires Split(cookie, ';') == before + [e] + after
    requires EntryName(e) == key
    requires forall k :: 0 <= k < |after| ==> EntryName(after[k]) != key
    ensures var d := decode(EntryValue(e).GetOr(""));
      GetItem(cookie, key, decode) == if d == "" then None else Some(d)
  {
    LastMatchOfTail(before, e, after, key);
  }

  /**
   * A cookie string whose last entry named `key` is `key=encoded`, after any
   * white space, reads back the decoded value, or `null` when that is empty.
   */
  lemma PairThenGet(cookie: string, before: seq<string>, pad: string, after: seq<string>, key: string,
                    encoded: string, decode: string -> string)
    requires forall k :: 0 <= k < |pad| ==> IsSpace(pad[k])
    requires Plain(key) && Plain(encoded)
    requires Split(cookie, ';') == before + [pad + (key + "=" + encoded)] + after
    requires forall k :: 0 <= k < |after| ==> EntryName(after[k]) != key
    ensures var d := decode(encoded);
      GetItem(cookie, key, decode) == if d == "" then None else Some(d)
  {
    var e := pad + (key + "=" + encoded);
    assert e == pad + key + "=" + encoded;
    PlainEntry(pad, key, encoded);
    GetItemOfLastEntry(cookie, before, e, after, key, decode);
  }

  /**
   * Round trip: a cookie string whose last entry named `key` is the pair
   * `setItem` wrote, after any white space, reads back the value, when the
   * value is non-empty, its encoding is plain and decoding inverts encoding.
   */
  lemma SetThenGet(cookie: string, before: seq<string>, pad: string, after: seq<string>, key: string,
                   value: string, nowMs: int, encode: string -> string, decode: string -> string,
                   toUtc: int -> string)
    requires forall k :: 0 <= k < |pad| ==> IsSpace(pad[k])
    requires Plain(key) && Plain(encode(value)) && ';' !in toUtc(nowMs + 604800000)
    requires decode(encode(value)) == value && value != ""
    requires Split(cookie, ';') == before + [pad + Split(SetItem(key, value, nowMs, encode, toUtc), ';')[0]] + after
    requires forall k :: 0 <= k < |after| ==> EntryName(after[k]) != key
    ensures GetItem(cookie, key, decode) == Some(value)
  {
    PairThenGet(cookie, before, pad, after, key, encode(value), decode);
  }

  /**
   * The cookie string holding only the pair `setItem` wrote, as the browser
   * reports a single cookie, reads back the value.
   */
  lemma SetThenGetOnlyCookie(key: string, value: string, nowMs: int, encode: string -> string,
                             decode: string -> string, toUtc: int -> string)
    requires Plain(key) && Plain(encode(value)) && ';' !in toUtc(nowMs + 604800000)
    requires decode(encode(value)) == value && value != ""
    ensures GetItem(key + "=" + encode(value), key, decode) == Some(value)
  {
    var pair := key + "=" + encode(value);
    SplitNoSeparator(pair, ';');
    assert Split(SetItem(key, value, nowMs, encode, toUtc), ';')[0] == pair;
    assert ';' !in pair;
    assert "" + pair == pair;
    assert [] + [pair] + [] == [pair];
    SetThenGet(pair, [], "", [], key, value, nowMs, encode, decode, toUtc);
  }

  /**
   * A cookie string whose last entry named `key` is the pair `removeItem`
   * wrote, after any white space, reads as `null`, when decoding the empty
   * string gives the empty string.
   */
  lemma RemoveThenGet(cookie: string, before: seq<string>, pad: string, after: seq<string>, key: string,
                      decode: string -> string)
    requires forall k :: 0 <= k < |pad| ==> IsSpace(pad[k])
    requires Plain(key) && decode("") == ""
    requires Split(cookie, ';') == before + [pad + Split(RemoveItem(key), ';')[0]] + after
    requires forall k :: 0 <= k < |after| ==> EntryName(after[k]) != key
    ensures GetItem(cookie, key, decode) == None
  {
    assert key + "=" == key + "=" + "";
    PairThenGet(cookie, before, pad, after, key, "", decode);
  }
}

/**
 * The string operations the publish scripts rely on: `String.prototype.split`
 * on one character and the matching join, quote stripping with `replace`,
 * and the parts of Node's `path` module that the scripts use on their paths.
 */
module Text {

  predicate EndsWith(s: string, suffix: string)
  {
    |suffix| <= |s| && s[|s| - |suffix|..] == suffix
  }

  predicate StartsWith(s: string, prefix: string)
  {
    |prefix| <= |s| && s[..|prefix|] == prefix
  }

  lemma StartsWithAppend(a: string, b: string)
    ensures StartsWith(a + b, a)
  {
    assert (a + b)[..|a|] == a;
  }

  /** A prefix stays a prefix when more text follows. */
  lemma StartsWithExtend(s: string, prefix: string, more: string)
    requires StartsWith(s, prefix)
    ensures StartsWith(s + more, prefix)
  {
    assert (s + more)[..|prefix|] == s[..|prefix|];
  }

  lemma EndsWithAppend(a: string, b: string)
    ensures EndsWith(a + b, b)
  {
    assert (a + b)[|a + b| - |b|..] == b;
  }

  // ---------------------------------------------------------------------------
  // split and join on one separator character

  /** `s.split(c)`: the pieces between occurrences of `c`; never an empty list. */
  function Split(s: string, c: char): (r: seq<string>)
    ensures |r| >= 1
  {
    if s == [] then [""]
    else
      var rest := Split(s[1..], c);
      if s[0] == c then [""] + rest
      else [[s[0]] + rest[0]] + rest[1..]
  }

  /** No piece of a split holds the separator. */
  lemma {:induction false} SplitPiecesFree(s: string, c: char)
    ensures forall i :: 0 <= i < |Split(s, c)| ==> c !in Split(s, c)[i]
  {
    if s != [] {
      SplitPiecesFree(s[1..], c);
      var rest := Split(s[1..], c);
      var r := Split(s, c);
      forall i | 0 <= i < |r|
        ensures c !in r[i]
      {
        if s[0] == c {
          assert r == [""] + rest;
          if i > 0 {
            assert r[i] == rest[i - 1];
          }
        } else {
          assert r == [[s[0]] + rest[0]] + rest[1..];
          if i > 0 {
            assert r[i] == rest[i];
          } else {
            assert c !in rest[0];
            assert r[0] == [s[0]] + rest[0];
          }
        }
      }
    }
  }

  /** `parts.join(c)`. */
  function Join(parts: seq<string>, c: char): string
  {
    if |parts| == 0 then ""
    else if |parts| == 1 then parts[0]
    else parts[0] + [c] + Join(parts[1..], c)
  }

  /** Joining the pieces of a split gives the original string back. */
  lemma {:induction false} JoinSplit(s: string, c: char)
    ensures Join(Split(s, c), c) == s
  {
    if s != [] {
      JoinSplit(s[1..], c);
      var rest := Split(s[1..], c);
      if s[0] != c && |rest| > 1 {
        assert Join(rest, c) == rest[0] + [c] + Join(rest[1..], c);
      }
    }
  }

  /** A string without the separator splits into itself alone. */
  lemma {:induction false} SplitWithoutSeparator(s: string, c: char)
    requires c !in s
    ensures Split(s, c) == [s]
  {
    if s != [] {
      SplitWithoutSeparator(s[1..], c);
      assert [s[0]] + s[1..] == s;
    }
  }

  /** Splitting around one occurrence of the separator splits both sides independently. */
  lemma {:induction false} SplitAround(a: string, c: char, b: string)
    ensures Split(a + [c] + b, c) == Split(a, c) + Split(b, c)
  {
    if a == [] {
      assert a + [c] + b == [c] + b;
      assert ([c] + b)[1..] == b;
    } else {
      assert (a + [c] + b)[1..] == a[1..] + [c] + b;
      SplitAround(a[1..], c, b);
    }
  }

  /** One separator between two separator-free texts splits into exactly those two. */
  lemma SplitPair(a: string, b: string, c: char)
    requires c !in a && c !in b
    ensures Split(a + [c] + b, c) == [a, b]
  {
    SplitAround(a, c, b);
    SplitWithoutSeparator(a, c);
    SplitWithoutSeparator(b, c);
  }

  /** The last piece of a split is the text after the last separator. */
  lemma SplitLast(a: string, b: string, c: char)
    requires c !in b
    ensures var r := Split(a + [c] + b, c); r[|r| - 1] == b
  {
    SplitAround(a, c, b);
    SplitWithoutSeparator(b, c);
  }

  /** Two separators in a row leave an empty piece between their neighbours. */
  lemma SplitTwoSeparators(a: string, b: string, c: char)
    requires c !in a && c !in b
    ensures Split(a + [c, c] + b, c) == [a, "", b]
  {
    assert a + [c, c] + b == a + [c] + ([] + [c] + b);
    SplitAround(a, c, [] + [c] + b);
    SplitAround([], c, b);
    SplitWithoutSeparator(a, c);
    SplitWithoutSeparator(b, c);
  }

  /** Joining one more piece puts a separator before it. */
  lemma {:induction false} JoinSnoc(parts: seq<string>, x: string, c: char)
    requires |parts| >= 1
    ensures Join(parts + [x], c) == Join(parts, c) + [c] + x
  {
    if |parts| > 1 {
      assert (parts + [x])[1..] == parts[1..] + [x];
      JoinSnoc(parts[1..], x, c);
    }
  }

  /** Splitting a join of separator-free pieces gives the pieces back. */
  lemma {:induction false} SplitJoin(parts: seq<string>, c: char)
    requires |parts| >= 1
    requires forall i :: 0 <= i < |parts| ==> c !in parts[i]
    ensures Split(Join(parts, c), c) == parts
  {
    SplitWithoutSeparator(parts[0], c);
    if |parts| > 1 {
      SplitJoin(parts[1..], c);
      SplitAround(parts[0], c, Join(parts[1..], c));
    }
  }

  // ---------------------------------------------------------------------------
  // replace(/x/g, '')

  /** `s.replace(/ch/g, '')`: every occurrence of `ch` removed, the rest kept in order. */
  function StripChar(s: string, ch: char): (r: string)
    ensures ch !in r
    ensures |r| <= |s|
    ensures forall i :: 0 <= i < |r| ==> r[i] in s
  {
    if s == [] then ""
    else if s[0] == ch then StripChar(s[1..], ch)
    else [s[0]] + StripChar(s[1..], ch)
  }

  /** Removing a character that does not occur changes nothing. */
  lemma {:induction false} StripAbsentChar(s: string, ch: char)
    requires ch !in s
    ensures StripChar(s, ch) == s
  {
    if s != [] {
      StripAbsentChar(s[1..], ch);
    }
  }

  /** `s.replace(/'/g, '').replace(/"/g, '')`, the quote stripping applied to option values. */
  function StripQuotes(s: string): (r: string)
    ensures '\'' !in r && '"' !in r
    ensures |r| <= |s|
  {
    StripChar(StripChar(s, '\''), '"')
  }

  /** Removing a character from a concatenation removes it from each part. */
  lemma {:induction false} StripCharAppend(a: string, b: string, ch: char)
    ensures StripChar(a + b, ch) == StripChar(a, ch) + StripChar(b, ch)
  {
    if a != [] {
      assert (a + b)[1..] == a[1..] + b;
      StripCharAppend(a[1..], b, ch);
    } else {
      assert a + b == b;
    }
  }

  /** Any other character survives the removal. */
  lemma StripCharKeeps(c: char, ch: char)
    requires c != ch
    ensures StripChar([c], ch) == [c]
  {
    assert [c][1..] == [];
  }

  /**
   * Quote stripping works character by character: it distributes over
   * concatenation, drops each quote and keeps every other character, so
   * what remains is the input's other characters in their order.
   */
  lemma StripQuotesAppend(a: string, b: string)
    ensures StripQuotes(a + b) == StripQuotes(a) + StripQuotes(b)
  {
    StripCharAppend(a, b, '\'');
    StripCharAppend(StripChar(a, '\''), StripChar(b, '\''), '"');
  }

  /** A single character is dropped exactly when it is a quote. */
  lemma StripQuotesChar(c: char)
    ensures StripQuotes([c]) == if c == '\'' || c == '"' then "" else [c]
  {
    if c != '\'' {
      StripCharKeeps(c, '\'');
      if c != '"' {
        StripCharKeeps(c, '"');
      }
    }
  }

  /** Quote stripping is idempotent. */
  lemma StripQuotesIdempotent(s: string)
    ensures StripQuotes(StripQuotes(s)) == StripQuotes(s)
  {
    var r := StripQuotes(s);
    StripAbsentChar(r, '\'');
    StripAbsentChar(r, '"');
  }

  // ---------------------------------------------------------------------------
  // path.normalize, restricted to the collapse of repeated separators

  predicate NoDoubleSlash(s: string)
  {
    forall i :: 0 <= i < |s| - 1 ==> !(s[i] == '/' && s[i + 1] == '/')
  }

  /** Whether the text processed so far ends in a separator (`start` for no text). */
  function EndsInSlash(s: string, start: bool): bool
  {
    if s == [] then start else s[|s| - 1] == '/'
  }

  /**
   * Copies `p`, dropping every '/' that follows another '/'; `afterSlash` says
   * whether the text before `p` ended in a separator.
   */
  function Collapse(p: string, afterSlash: bool): string
  {
    if p == [] then []
    else if p[0] == '/' && afterSlash then Collapse(p[1..], true)
    else [p[0]] + Collapse(p[1..], p[0] == '/')
  }

  /** Collapsing leaves no repeated separator, none at the start after a separator, and never lengthens. */
  lemma {:induction false} CollapseShape(p: string, afterSlash: bool)
    ensures var r := Collapse(p, afterSlash);
      NoDoubleSlash(r) && (afterSlash && |r| > 0 ==> r[0] != '/') && |r| <= |p|
  {
    if p != [] {
      var next := p[0] == '/';
      CollapseShape(p[1..], next);
      if !(next && afterSlash) {
        var tail := Collapse(p[1..], next);
        var r := [p[0]] + tail;
        forall i | 0 <= i < |r| - 1
          ensures !(r[i] == '/' && r[i + 1] == '/')
        {
          if i > 0 {
            assert r[i] == tail[i - 1] && r[i + 1] == tail[i];
          }
        }
      }
    }
  }

  /** `path.normalize(p)` for paths without `.` or `..` segments: runs of '/' become one. */
  function Normalize(p: string): (r: string)
    ensures NoDoubleSlash(r)
  {
    CollapseShape(p, false);
    Collapse(p, false)
  }

  /** One step of `Collapse` on a text that starts with `c`. */
  lemma CollapseCons(c: char, t: string, b: bool)
    ensures Collapse([c] + t, b) == if c == '/' && b then Collapse(t, true) else [c] + Collapse(t, c == '/')
  {
    assert ([c] + t)[1..] == t;
  }

  /** Collapsing a concatenation is collapsing each part, the second after the first's last character. */
  lemma {:induction false} CollapseAppend(x: string, y: string, b: bool)
    ensures Collapse(x + y, b) == Collapse(x, b) + Collapse(y, EndsInSlash(x, b))
  {
    if x == [] {
      assert x + y == y;
    } else {
      var c, t := x[0], x[1..];
      var next := c == '/';
      var end := EndsInSlash(x, b);
      assert end == EndsInSlash(t, next) by {
        if t != [] {
          assert x[|x| - 1] == t[|t| - 1];
        }
      }
      CollapseAppend(t, y, next);
      assert x == [c] + t;
      assert x + y == [c] + (t + y);
      CollapseCons(c, t, b);
      CollapseCons(c, t + y, b);
      PrependAppend(c, Collapse(t + y, next), Collapse(t, next), Collapse(y, end), c == '/' && b);
    }
  }

  /** Optionally putting `c` in front of `q + r` is putting it in front of `q`. */
  lemma PrependAppend(c: char, p: string, q: string, r: string, skip: bool)
    requires p == q + r
    ensures (if skip then p else [c] + p) == (if skip then q else [c] + q) + r
  {
  }

  /** Collapsing keeps whether the text ends in a separator. */
  lemma {:induction false} CollapseKeepsEnd(x: string, b: bool)
    ensures EndsInSlash(Collapse(x, b), b) == EndsInSlash(x, b)
  {
    if x != [] {
      var s := x[0] == '/';
      CollapseKeepsEnd(x[1..], if s && b then true else s);
    }
  }

  /** Text that has no repeated separator already is left alone. */
  lemma {:induction false} CollapseClean(s: string, b: bool)
    requires NoDoubleSlash(s)
    requires !(b && |s| > 0 && s[0] == '/')
    ensures Collapse(s, b) == s
  {
    if s != [] {
      assert NoDoubleSlash(s[1..]) by {
        forall i | 0 <= i < |s[1..]| - 1
          ensures !(s[1..][i] == '/' && s[1..][i + 1] == '/')
        {
          assert s[1..][i] == s[i + 1] && s[1..][i + 1] == s[i + 2];
        }
      }
      if |s| > 1 {
        assert !(s[0] == '/' && s[1] == '/');
      }
      CollapseClean(s[1..], s[0] == '/');
    }
  }

  /** Normalizing a normalized prefix again, with more text after it, is the same as normalizing once. */
  lemma NormalizeAppend(x: string, y: string)
    ensures Normalize(Normalize(x) + y) == Normalize(x + y)
  {
    var nx := Normalize(x);
    CollapseAppend(nx, y, false);
    CollapseClean(nx, false);
    CollapseKeepsEnd(x, false);
    CollapseAppend(x, y, false);
  }

  /** Normalization is idempotent. */
  lemma NormalizeIdempotent(p: string)
    ensures Normalize(Normalize(p)) == Normalize(p)
  {
    CollapseClean(Normalize(p), false);
  }

  // ---------------------------------------------------------------------------
  // path.basename

  /** The text after the last '/'. */
  function LastSegment(p: string): (r: string)
    ensures '/' !in r
    ensures |r| <= |p| && r == p[|p| - |r|..]
    ensures |r| < |p| ==> p[|p| - |r| - 1] == '/'
  {
    if p == [] then []
    else if p[|p| - 1] == '/' then []
    else LastSegment(p[..|p| - 1]) + [p[|p| - 1]]
  }

  /** The last segment of `q/t` is `t` when `t` has no separator. */
  lemma {:induction false} LastSegmentAfterSlash(q: string, t: string)
    requires '/' !in t
    ensures LastSegment(q + "/" + t) == t
  {
    if t != [] {
      var last := t[|t| - 1];
      assert (q + "/" + t)[..|q + "/" + t| - 1] == q + "/" + t[..|t| - 1];
      LastSegmentAfterSlash(q, t[..|t| - 1]);
      assert t[..|t| - 1] + [last] == t;
    } else {
      assert q + "/" + t == q + "/";
    }
  }

  /**
   * `path.dirname(p)` for a path without a trailing separator: everything
   * before the last segment, `/` for a top-level entry, `.` when there is no
   * separator at all.
   */
  function Dirname(p: string): string
  {
    var seg := LastSegment(p);
    if |seg| == |p| then "."
    else
      var head := p[..|p| - |seg| - 1];
      if head == "" then "/" else head
  }

  /** The directory of `q/t` is `q`, for a non-empty `q` and a separator-free `t`. */
  lemma DirnameOfChild(q: string, t: string)
    requires q != "" && '/' !in t
    ensures Dirname(q + "/" + t) == q
  {
    LastSegmentAfterSlash(q, t);
    var p := q + "/" + t;
    assert p[..|p| - |t| - 1] == q;
  }

  /**
   * `path.basename(p, ext)`: the last segment, without `ext` when it ends with
   * `ext` and is longer than it (a segment that IS the extension is kept).
   */
  function Basename(p: string, ext: string): (r: string)
    ensures '/' !in r
  {
    var seg := LastSegment(p);
    if |ext| > 0 && |seg| > |ext| && EndsWith(seg, ext) then seg[..|seg| - |ext|] else seg
  }

  /** Normalizing `q/t`, for a separator-free `t`, keeps `t` as the last segment. */
  lemma NormalizeKeepsLastSegment(q: string, t: string)
    requires '/' !in t
    ensures LastSegment(Normalize(q + "/" + t)) == t
  {
    var w := Collapse(q + "/", false);
    CollapseAppend(q + "/", t, false);
    assert EndsInSlash(q + "/", false);
    CollapseKeepsEnd(q + "/", false);
    assert |w| > 0 && w[|w| - 1] == '/';
    assert NoDoubleSlash(t) && !(|t| > 0 && t[0] == '/');
    CollapseClean(t, true);
    var w' := w[..|w| - 1];
    assert w == w' + "/";
    assert Normalize(q + "/" + t) == w' + "/" + t;
    LastSegmentAfterSlash(w', t);
  }

  /** The basename of `q/<name><ext>` without that extension is `name`. */
  lemma BasenameOfChild(q: string, name: string, ext: string)
    requires '/' !in name && '/' !in ext
    requires name != [] && ext != []
    ensures Basename(q + "/" + name + ext, ext) == name
  {
    assert q + "/" + name + ext == q + "/" + (name + ext);
    assert '/' !in name + ext;
    LastSegmentAfterSlash(q, name + ext);
    assert (name + ext)[|name + ext| - |ext|..] == ext;
    assert (name + ext)[..|name + ext| - |ext|] == name;
  }

  /** The basename of a normalized `q/<name><ext>` without that extension is `name`. */
  lemma NormalizedBasename(q: string, name: string, ext: string)
    requires '/' !in name && '/' !in ext
    requires name != [] && ext != []
    ensures Basename(Normalize(q + "/" + name + ext), ext) == name
  {
    assert q + "/" + name + ext == q + "/" + (name + ext);
    assert '/' !in name + ext;
    NormalizeKeepsLastSegment(q, name + ext);
    assert (name + ext)[|name + ext| - |ext|..] == ext;
    assert (name + ext)[..|name + ext| - |ext|] == name;
  }
}

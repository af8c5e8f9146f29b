/** Stamping the request's nonce onto the script tags of a rendered page. */
module ScriptNonces {
  import opened Prelude

  const TAG := "<script"
  const MARK := "nonce="

  // ----- text search

  /** `pattern` stands at none of the first `n` places. */
  predicate Misses(s: string, pattern: string, n: nat)
    requires n <= |s|
    decreases n
  {
    n == 0 || (!(pattern <= s) && Misses(s[1..], pattern, n - 1))
  }

  /** The first place `pattern` stands at. */
  function Find(s: string, pattern: string): (at: Option<nat>)
    ensures at.Some? ==> at.value <= |s| && pattern <= s[at.value..] && Misses(s, pattern, at.value)
    ensures at.None? ==> Misses(s, pattern, |s|)
  {
    if pattern <= s then Some(0)
    else if s == [] then None
    else
      var later := Find(s[1..], pattern);
      if later.Some? then
        assert s[later.value + 1..] == s[1..][later.value..];
        Some(later.value + 1)
      else None
  }

  // ----- tags

  /** What follows `<script` makes it a script tag, not `<scripting>`. */
  predicate Opens(after: string) {
    after != [] && (after[0] == '>' || IsWhitespace(after[0]))
  }

  /** The text after `<script` declares a nonce before the tag's `>`. */
  predicate HasNonce(after: string) {
    after != [] && after[0] != '>' && (MARK <= after || HasNonce(after[1..]))
  }

  /** A script tag stands at the head of `s` and declares no nonce. */
  predicate BareTag(s: string) {
    TAG <= s && Opens(s[|TAG|..]) && !HasNonce(s[|TAG|..])
  }

  function Attribute(nonce: string): string {
    " nonce=\"" + nonce + "\""
  }

  /** The page with the attribute added to every bare script tag. */
  function Stamped(s: string, attribute: string): string {
    if s == [] then []
    else if TAG <= s then TAG + (if BareTag(s) then attribute else []) + Stamped(s[|TAG|..], attribute)
    else [s[0]] + Stamped(s[1..], attribute)
  }

  lemma {:induction false} StampedSkips(s: string, attribute: string, at: nat)
    requires at <= |s| && Misses(s, TAG, at)
    ensures Stamped(s, attribute) == s[..at] + Stamped(s[at..], attribute)
  {
    if at > 0 {
      StampedSkips(s[1..], attribute, at - 1);
      assert s[1..][at - 1..] == s[at..] && [s[0]] + s[1..][..at - 1] == s[..at];
    }
  }

  lemma {:induction false} HasNonceBefore(after: string, end: nat)
    requires end <= |after| && Misses(after, ">", end) && (end == |after| || after[end] == '>')
    ensures HasNonce(after) <==> Find(after[..end], MARK).Some?
  {
    if end > 0 {
      var rest := after[1..];
      HasNonceBefore(rest, end - 1);
      assert after[..end][1..] == rest[..end - 1];
      MarkFits(after, end);
      assert after[0] == '>' ==> ">" <= after;
    }
  }

  /** The mark holds no `>`, so it cannot reach over the tag's end. */
  lemma MarkFits(after: string, end: nat)
    requires end <= |after| && (end == |after| || after[end] == '>')
    ensures MARK <= after[..end] <==> MARK <= after
  {
    assert forall i | 0 <= i < |MARK| :: MARK[i] != '>';
  }

  lemma StampedHead(t: string, attribute: string)
    requires TAG <= t
    ensures Stamped(t, attribute) ==
            TAG + (if Opens(t[|TAG|..]) && !HasNonce(t[|TAG|..]) then attribute else [])
                + Stamped(t[|TAG|..], attribute)
  {
  }

  lemma StampedStep(s: string, attribute: string, at: nat, after: string)
    requires at <= |s| && TAG <= s[at..] && Misses(s, TAG, at) && after == s[at..][|TAG|..]
    ensures at + |TAG| <= |s| && after == s[at + |TAG|..]
    ensures Stamped(s, attribute) ==
            s[..at + |TAG|] + (if Opens(after) && !HasNonce(after) then attribute else []) + Stamped(after, attribute)
  {
    StampedSkips(s, attribute, at);
    StampedHead(s[at..], attribute);
    assert s[..at + |TAG|] == s[..at] + TAG;
  }

  /** Looks for the mark between `<script` and the tag's `>`. */
  method DeclaresNonce(after: string) returns (declared: bool)
    ensures declared == HasNonce(after)
  {
    var close := Find(after, ">");
    var end := if close.Some? then close.value else |after|;
    HasNonceBefore(after, end);
    declared := Find(after[..end], MARK).Some?;
  }

  /** The text up to and with the first `<script`, and the attribute if that tag lacks a nonce. */
  method StampFirst(rest: string, attribute: string, at: nat) returns (head: string, after: string)
    requires at <= |rest| && TAG <= rest[at..] && Misses(rest, TAG, at)
    ensures head + Stamped(after, attribute) == Stamped(rest, attribute) && |after| < |rest|
  {
    var afterTag := at + |TAG|;
    StampedStep(rest, attribute, at, rest[at..][|TAG|..]);
    head := rest[..afterTag];
    after := rest[afterTag..];
    if Opens(after) {
      // A tag that already declares a nonce is not stamped again.
      var declared := DeclaresNonce(after);
      if !declared {
        head := head + attribute;
      }
    }
  }

  /** Walks from tag to tag, adding the attribute where it is missing. */
  method InjectScriptNonce(html: string, nonce: string) returns (out: string)
    ensures out == Stamped(html, Attribute(nonce))
  {
    var attribute := Attribute(nonce);
    if Find(html, TAG).None? {
      StampedSkips(html, attribute, |html|);
      return html;
    }
    out := "";
    var rest := html;
    var found := Find(rest, TAG);
    while found.Some?
      invariant found == Find(rest, TAG)
      invariant out + Stamped(rest, attribute) == Stamped(html, attribute)
      decreases |rest|
    {
      var head, after := StampFirst(rest, attribute, found.value);
      assert out + (head + Stamped(after, attribute)) == out + head + Stamped(after, attribute);
      out := out + head;
      rest := after;
      found := Find(rest, TAG);
    }
    StampedSkips(rest, attribute, |rest|);
    out := out + rest;
  }

  // ----- what stamping promises

  /** Every script tag in `t` declares a nonce. */
  predicate AllDeclare(t: string) {
    t == [] || (!BareTag(t) && AllDeclare(t[1..]))
  }

  /** `t` is `s` with `attribute` added after some bare tags and nothing else changed. */
  predicate OnlyAdds(s: string, t: string, attribute: string)
    decreases |s|
  {
    if s == [] then t == []
    else
      || (t != [] && t[0] == s[0] && OnlyAdds(s[1..], t[1..], attribute))
      || (BareTag(s) && TAG + attribute <= t && OnlyAdds(s[|TAG|..], t[|TAG| + |attribute|..], attribute))
  }

  /** How many bare tags a page has. */
  function BareTags(s: string): nat {
    if s == [] then 0 else (if BareTag(s) then 1 else 0) + BareTags(s[1..])
  }

  lemma TagInner(s: string)
    requires TAG <= s
    ensures BareTags(s) == (if BareTag(s) then 1 else 0) + BareTags(s[|TAG|..])
    ensures AllDeclare(s) <==> !BareTag(s) && AllDeclare(s[|TAG|..])
  {
    PastNoTag(s[1..], |TAG| - 1);
    assert s[1..][|TAG| - 1..] == s[|TAG|..];
  }

  lemma {:induction false} PastNoTag(s: string, n: nat)
    requires n <= |s| && forall i | 0 <= i < n :: s[i] != '<'
    ensures BareTags(s) == BareTags(s[n..])
    ensures AllDeclare(s) <==> AllDeclare(s[n..])
  {
    if n > 0 {
      assert TAG[0] == '<';
      PastNoTag(s[1..], n - 1);
      assert s[1..][n - 1..] == s[n..];
    }
  }

  /** Stamping only inserts, at bare tags alone, so every look-alike and every tag with a nonce is kept
      as it is. */
  lemma {:induction false} StampingOnlyAdds(s: string, attribute: string)
    ensures OnlyAdds(s, Stamped(s, attribute), attribute)
    decreases |s|
  {
    if s != [] {
      var t := Stamped(s, attribute);
      if TAG <= s {
        var rest := s[|TAG|..];
        StampingOnlyAdds(rest, attribute);
        if BareTag(s) {
          assert t[|TAG| + |attribute|..] == Stamped(rest, attribute);
        } else {
          assert s == TAG + rest && t == TAG + Stamped(rest, attribute);
          KeepsPrefix(TAG, rest, Stamped(rest, attribute), attribute);
        }
      } else {
        StampingOnlyAdds(s[1..], attribute);
      }
    }
  }

  lemma {:induction false} KeepsPrefix(p: string, s: string, t: string, attribute: string)
    requires OnlyAdds(s, t, attribute)
    ensures OnlyAdds(p + s, p + t, attribute)
  {
    if p == [] {
      assert p + s == s && p + t == t;
    } else {
      KeepsPrefix(p[1..], s, t, attribute);
      assert (p + s)[1..] == p[1..] + s && (p + t)[1..] == p[1..] + t;
    }
  }

  /** It inserts at every bare tag: the page grows by one attribute for each. */
  lemma {:induction false} EveryBareTagGrows(s: string, attribute: string)
    ensures |Stamped(s, attribute)| == |s| + BareTags(s) * |attribute|
    decreases |s|
  {
    if s != [] {
      if TAG <= s {
        TagInner(s);
        EveryBareTagGrows(s[|TAG|..], attribute);
      } else {
        EveryBareTagGrows(s[1..], attribute);
      }
    }
  }

  /** Stamping changes no text before the first `<`. */
  lemma {:induction false} SameStart(s: string, attribute: string, word: string)
    requires '<' !in word
    ensures word <= Stamped(s, attribute) <==> word <= s
    decreases |s|
  {
    if s != [] && word != [] {
      var t := Stamped(s, attribute);
      assert t[0] == s[0];
      if s[0] != '<' {
        assert TAG[0] == '<';
        SameStart(s[1..], attribute, word[1..]);
        assert t[1..] == Stamped(s[1..], attribute);
        PrefixTail(word, s);
        PrefixTail(word, t);
      } else {
        assert word[0] != '<';
      }
    }
  }

  lemma PrefixTail(word: string, s: string)
    requires word != [] && s != []
    ensures word <= s <==> word[0] == s[0] && word[1..] <= s[1..]
  {
    if word <= s {
      assert s[1..][..|word| - 1] == s[..|word|][1..] == word[1..];
    }
    if word[0] == s[0] && word[1..] <= s[1..] {
      assert s[..|word|] == [s[0]] + s[1..][..|word| - 1];
    }
  }

  /** Nothing in `<script` declares a nonce or ends the tag. */
  lemma {:induction false} NoncePast(p: string, rest: string)
    requires '>' !in p && 'n' !in p
    ensures HasNonce(p + rest) <==> HasNonce(rest)
  {
    if p == [] {
      assert p + rest == rest;
    } else {
      assert (p + rest)[1..] == p[1..] + rest;
      assert (p + rest)[0] == p[0] && MARK[0] == 'n';
      NoncePast(p[1..], rest);
    }
  }

  lemma AttributeDeclares(nonce: string, rest: string)
    ensures HasNonce(Attribute(nonce) + rest)
  {
    var s := Attribute(nonce) + rest;
    assert s[0] == ' ';
    assert s[1..][..6] == MARK;
  }

  /** A tag that declares a nonce still does after stamping the text behind it. */
  lemma {:induction false} NonceKept(s: string, nonce: string)
    requires HasNonce(s)
    ensures HasNonce(Stamped(s, Attribute(nonce)))
    decreases |s|
  {
    var attribute := Attribute(nonce);
    var t := Stamped(s, attribute);
    assert t[0] == s[0];
    if MARK <= s {
      SameStart(s, attribute, MARK);
    } else if TAG <= s {
      var rest := s[|TAG|..];
      assert s == TAG + rest;
      NoncePast(TAG, rest);
      NonceKept(rest, nonce);
      NoncePast(TAG, Stamped(rest, attribute));
      assert t == TAG + Stamped(rest, attribute);
    } else {
      NonceKept(s[1..], nonce);
      assert t[1..] == Stamped(s[1..], attribute);
    }
  }

  /** After stamping, every real script tag declares a nonce before its `>`. */
  lemma {:induction false} EveryTagDeclares(s: string, nonce: string)
    requires '<' !in nonce
    ensures AllDeclare(Stamped(s, Attribute(nonce)))
    decreases |s|
  {
    var attribute := Attribute(nonce);
    var t := Stamped(s, attribute);
    if s == [] {
    } else if TAG <= s {
      var rest := s[|TAG|..];
      var tail := Stamped(rest, attribute);
      EveryTagDeclares(rest, nonce);
      if BareTag(s) {
        assert t[|TAG|..] == attribute + tail;
        AttributeDeclares(nonce, tail);
        assert '<' !in attribute;
        assert (attribute + tail)[|attribute|..] == tail;
        PastNoTag(attribute + tail, |attribute|);
      } else {
        assert t[|TAG|..] == tail;
        if Opens(tail) {
          assert tail[0] == rest[0];
          NonceKept(rest, nonce);
        }
      }
      TagInner(t);
    } else {
      EveryTagDeclares(s[1..], nonce);
      assert t[1..] == Stamped(s[1..], attribute);
      var word := TAG[1..];
      SameStart(s[1..], attribute, word);
      PrefixTail(TAG, s);
      PrefixTail(TAG, t);
    }
  }

  lemma {:induction false} NothingToStamp(t: string, attribute: string)
    requires AllDeclare(t)
    ensures Stamped(t, attribute) == t
    decreases |t|
  {
    if t != [] {
      if TAG <= t {
        TagInner(t);
        NothingToStamp(t[|TAG|..], attribute);
      } else {
        NothingToStamp(t[1..], attribute);
      }
    }
  }

  /** A second run, with whatever nonce, changes nothing. */
  lemma StampTwice(s: string, nonce: string, second: string)
    requires '<' !in nonce
    ensures Stamped(Stamped(s, Attribute(nonce)), Attribute(second)) == Stamped(s, Attribute(nonce))
  {
    EveryTagDeclares(s, nonce);
    NothingToStamp(Stamped(s, Attribute(nonce)), Attribute(second));
  }

  // ----- the nonce

  function HexDigit(n: nat): char
    requires n < 16
  {
    "0123456789abcdef"[n]
  }

  predicate IsHex(c: char) {
    '0' <= c <= '9' || 'a' <= c <= 'f'
  }

  function HexValue(c: char): nat
    requires IsHex(c)
  {
    if c <= '9' then c as nat - '0' as nat else c as nat - 'a' as nat + 10
  }

  lemma HexRoundTrip(n: nat)
    requires n < 16
    ensures IsHex(HexDigit(n)) && HexValue(HexDigit(n)) == n
  {
  }

  /** The nonce of random bytes: two lower-case hex digits each, from which the bytes can be read back,
      so no nonce needs escaping or starts a tag, and different bytes give different nonces. */
  method NonceOf(bytes: seq<nat>) returns (out: string)
    requires forall i | 0 <= i < |bytes| :: bytes[i] < 256
    ensures |out| == 2 * |bytes| && forall i | 0 <= i < |out| :: IsHex(out[i])
    ensures forall i | 0 <= i < |bytes| :: 16 * HexValue(out[2 * i]) + HexValue(out[2 * i + 1]) == bytes[i]
    ensures '<' !in out
  {
    out := "";
    for k := 0 to |bytes|
      invariant |out| == 2 * k && forall i | 0 <= i < |out| :: IsHex(out[i])
      invariant forall i | 0 <= i < k :: 16 * HexValue(out[2 * i]) + HexValue(out[2 * i + 1]) == bytes[i]
    {
      HexRoundTrip(bytes[k] / 16);
      HexRoundTrip(bytes[k] % 16);
      out := out + [HexDigit(bytes[k] / 16), HexDigit(bytes[k] % 16)];
    }
  }

  predicate StandsAt(after: string, end: nat, k: int) {
    0 <= k && k + 6 <= end <= |after| && after[k..k + 6] == "nonce="
  }

  lemma Shifted(after: string, end: nat, k: int)
    requires 1 <= k && 1 <= end <= |after|
    ensures StandsAt(after, end, k) <==> StandsAt(after[1..], end - 1, k - 1)
  {
    if k + 6 <= end { assert after[k..k + 6] == after[1..][k - 1..k + 5]; }
  }

  /** A tag declares a nonce exactly when `nonce=` stands somewhere before its `>`. */
  lemma {:induction false} DeclaredExactly(after: string, end: nat)
    requires end <= |after| && (end == |after| || after[end] == '>')
    requires forall i | 0 <= i < end :: after[i] != '>'
    ensures HasNonce(after) <==> exists k :: StandsAt(after, end, k)
    decreases end
  {
    if end > 0 {
      var rest, sooner: nat := after[1..], end - 1;
      DeclaredExactly(rest, sooner);
      MarkFits(after, end);
      MarkAtHead(after, end);
      if k :| StandsAt(after, end, k) && k > 0 { Shifted(after, end, k); }
      if k :| StandsAt(rest, sooner, k) { Shifted(after, end, k + 1); }
    }
  }

  lemma MarkAtHead(after: string, end: nat)
    requires end <= |after|
    ensures StandsAt(after, end, 0) <==> MARK <= after[..end]
  {
    if end >= 6 { assert after[..end][..6] == after[0..6]; }
  }

  // ----- which tags are script tags

  /** `<script>` and `<script ...` are stamped, unless they declare a nonce. */
  lemma ScriptIsStamped(rest: string, end: char, attribute: string)
    requires end == '>' || end in [' ', '\t', '\n', '\r', '\U{000C}']
    ensures var s := "<script" + [end] + rest;
            Stamped(s, attribute) ==
            "<script" + (if end != '>' && HasNonce([end] + rest) then "" else attribute)
            + Stamped([end] + rest, attribute)
  {
    var s := "<script" + [end] + rest;
    assert s[|TAG|..] == [end] + rest;
    StampedHead(s, attribute);
  }

  /** `<scripting>` and the like are not. */
  lemma OthersAreNot(rest: string, next: char, attribute: string)
    requires '!' <= next <= '~' && next != '>'
    ensures var s := "<script" + [next] + rest;
            Stamped(s, attribute) == "<script" + Stamped([next] + rest, attribute)
  {
    var s := "<script" + [next] + rest;
    assert s[|TAG|..] == [next] + rest;
    StampedHead(s, attribute);
  }
}

/** The vanity address search of subkey: the seed counter, the score of an address against
    a pattern, and the search loop with its stopping rule. Strings are their UTF-8 bytes,
    and unsigned arithmetic is modulo 2^64. */
module Vanity {
  import opened Arithmetic
  import opened LittleEndian
  import opened Wrappers

  // ---- The seed counter ----

  /** The seed after one increment, by carrying. */
  function Successor(s: seq<byte>): (r: seq<byte>)
    ensures |r| == |s|
  {
    if s == [] then []
    else if s[0] == 255 then [0] + Successor(s[1..])
    else [s[0] + 1] + s[1..]
  }

  lemma {:induction false} SuccessorAddsOne(s: seq<byte>)
    ensures Value(Successor(s)) == if Value(s) + 1 == Pow256(|s|) then 0 else Value(s) + 1
  {
    if s != [] {
      SuccessorAddsOne(s[1..]);
      assert Successor(s)[1..] == if s[0] == 255 then Successor(s[1..]) else s[1..];
    }
  }

  /** A carry through the first `i` bytes clears them. */
  lemma {:induction false} SuccessorCarries(s: seq<byte>, i: nat)
    requires i <= |s| && forall k :: 0 <= k < i ==> s[k] == 255
    ensures Successor(s) == seq(i, _ => 0) + Successor(s[i..])
  {
    if i > 0 {
      SuccessorCarries(s[1..], i - 1);
      assert s[1..][i - 1..] == s[i..];
    } else {
      assert s[0..] == s;
    }
  }

  /** The in-place increment is +1 modulo 256^n on the little-endian value. */
  method NextSeed(seed: array<byte>)
    modifies seed
    ensures seed[..] == Successor(old(seed[..]))
    ensures Value(seed[..]) == (Value(old(seed[..])) + 1) % Pow256(seed.Length)
  {
    ghost var was := seed[..];
    var i := 0;
    while i < seed.Length && seed[i] == 255
      invariant i <= seed.Length
      invariant forall k :: 0 <= k < i ==> was[k] == 255 && seed[k] == 0
      invariant forall k :: i <= k < seed.Length ==> seed[k] == was[k]
    {
      seed[i] := 0;
      i := i + 1;
    }
    SuccessorCarries(was, i);
    if i < seed.Length {
      seed[i] := seed[i] + 1;
    }
    assert seed[..] == Successor(was);
    WalkAdds(was, 1);
  }

  /** The seed after `k` increments. */
  function Walk(s: seq<byte>, k: nat): (r: seq<byte>)
    ensures |r| == |s|
  {
    if k == 0 then s else Successor(Walk(s, k - 1))
  }

  lemma {:induction false} WalkAdds(s: seq<byte>, k: nat)
    ensures Walk(s, 1) == Successor(s)
    ensures Value(Walk(s, k)) == (Value(s) + k) % Pow256(|s|)
  {
    hide Value, Pow256, Successor;
    assert Walk(s, 1) == Successor(Walk(s, 0));
    if k == 0 {
      DivModIs(Value(s), Pow256(|s|), 0, Value(s));
    } else {
      WalkAdds(s, k - 1);
      SuccessorAddsOne(Walk(s, k - 1));
      ModSucc(Value(s) + k - 1, Pow256(|s|));
    }
  }

  /** A walk shorter than the whole cycle never meets the same seed twice. */
  lemma {:induction false} WalkDistinct(s: seq<byte>, i: nat, j: nat)
    requires i < j < i + Pow256(|s|)
    ensures Walk(s, i) != Walk(s, j)
  {
    hide Value, Pow256, Walk;
    WalkAdds(s, i);
    WalkAdds(s, j);
    ModDiffers(Value(s) + i, j - i, Pow256(|s|));
  }

  // ---- The score ----

  type Utf8 = seq<byte>

  predicate Ascii(s: Utf8) { forall i :: 0 <= i < |s| ==> s[i] < 0x80 }
  predicate Continuation(b: byte) { 0x80 <= b < 0xC0 }

  /** What every UTF-8 string satisfies: it does not start inside a character, and a byte
      that opens a longer character is followed by a continuation byte. */
  predicate IsUtf8(s: Utf8) {
    && (s != [] ==> !Continuation(s[0]))
    && forall i :: 0 <= i < |s| && s[i] >= 0xC0 ==> i + 1 < |s| && Continuation(s[i + 1])
  }

  /** A string can be sliced at `n` without cutting a character; elsewhere slicing panics. */
  predicate Boundary(s: Utf8, n: nat) { n >= |s| || !Continuation(s[n]) }

  predicate OccursAt(key: Utf8, pattern: Utf8, pos: nat) {
    pos + |pattern| <= |key| && key[pos..pos + |pattern|] == pattern
  }

  /** The earliest occurrence at or after `from`. */
  function Find(key: Utf8, pattern: Utf8, from: nat): (r: Option<nat>)
    ensures r.Some? ==> from <= r.value && OccursAt(key, pattern, r.value)
    ensures r.Some? ==> forall q: nat :: from <= q < r.value ==> !OccursAt(key, pattern, q)
    ensures r.None? ==> forall q: nat :: from <= q ==> !OccursAt(key, pattern, q)
    decreases |key| - from
  {
    if from + |pattern| > |key| then None
    else if key[from..from + |pattern|] == pattern then Some(from)
    else Find(key, pattern, from + 1)
  }

  function Wrap(x: int): nat { x % (U64_MAX + 1) }

  /** The score from prefixes of length `n` and shorter. */
  function ScoreFrom(desired: Utf8, key: Utf8, n: nat): nat
    requires n <= |desired|
  {
    if n == 0 then 0 else
    match Find(key, desired[..n], 0)
    case Some(pos) => Wrap((47 - pos) + n * 48)
    case None => ScoreFrom(desired, key, n - 1)
  }

  function Score(desired: Utf8, key: Utf8): nat { ScoreFrom(desired, key, |desired|) }

  /** Scoring the prefixes of length `n` and shorter slices inside a character before any
      prefix is found. */
  predicate Panics(desired: Utf8, key: Utf8, n: nat)
    requires n <= |desired|
  {
    n > 0 && (!Boundary(desired, n) || (Find(key, desired[..n], 0).None? && Panics(desired, key, n - 1)))
  }

  /** Longest prefix first, each looked for from the left. No result is a panic. */
  method CalculateScore(desired: Utf8, key: Utf8) returns (score: Option<nat>)
    ensures score == if Panics(desired, key, |desired|) then None else Some(Score(desired, key))
  {
    for truncate := 0 to |desired|
      invariant Score(desired, key) == ScoreFrom(desired, key, |desired| - truncate)
      invariant Panics(desired, key, |desired|) == Panics(desired, key, |desired| - truncate)
    {
      var snip := |desired| - truncate;
      if !Boundary(desired, snip) { return None; }
      var found := Find(key, desired[..snip], 0);
      if found.Some? {
        return Some(Wrap((47 - found.value) + snip * 48));
      }
    }
    return Some(0);
  }

  lemma {:induction false} AsciiNeverPanics(desired: Utf8, key: Utf8, n: nat)
    requires n <= |desired| && Ascii(desired)
    ensures !Panics(desired, key, n)
  {
    if n > 0 { AsciiNeverPanics(desired, key, n - 1); }
  }

  lemma BytesOfKey(key: Utf8, pattern: Utf8, pos: nat, i: nat)
    ensures i < |pattern| && OccursAt(key, pattern, pos) ==> pos + i < |key| && key[pos + i] == pattern[i]
  {
    if i < |pattern| && OccursAt(key, pattern, pos) {
      assert key[pos..pos + |pattern|][i] == key[pos + i];
    }
  }

  lemma {:induction false} InnerBytePanics(desired: Utf8, key: Utf8, i: nat, n: nat)
    requires Ascii(key) && 0 < i <= n <= |desired| && i < |desired| && Continuation(desired[i])
    ensures Panics(desired, key, n)
  {
    if n > i {
      InnerBytePanics(desired, key, i, n - 1);
      forall q: nat ensures !OccursAt(key, desired[..n], q) {
        BytesOfKey(key, desired[..n], q, i);
      }
    }
  }

  /** Against an ASCII address scoring panics if and only if the pattern is not ASCII. */
  lemma {:induction false} PanicsExactly(desired: Utf8, key: Utf8)
    requires IsUtf8(desired) && Ascii(key)
    ensures Panics(desired, key, |desired|) <==> !Ascii(desired)
  {
    if Ascii(desired) {
      AsciiNeverPanics(desired, key, |desired|);
    } else {
      var j: nat :| j < |desired| && desired[j] >= 0x80;
      InnerBytePanics(desired, key, if Continuation(desired[j]) then j else j + 1, |desired|);
    }
  }

  /** The longest prefix of `desired` found in `key` has length `n`, first found at `pos`. */
  ghost predicate BestMatch(desired: Utf8, key: Utf8, n: nat, pos: nat) {
    && 0 < n <= |desired| && OccursAt(key, desired[..n], pos)
    && (forall q: nat :: q < pos ==> !OccursAt(key, desired[..n], q))
    && (forall m: nat, q: nat :: n < m <= |desired| ==> !OccursAt(key, desired[..m], q))
  }

  ghost predicate NoMatch(desired: Utf8, key: Utf8) {
    forall m: nat, q: nat :: 0 < m <= |desired| ==> !OccursAt(key, desired[..m], q)
  }

  lemma SmallWrap(x: nat)
    requires x <= U64_MAX
    ensures Wrap(x) == x
  {
  }

  lemma {:induction false} ScoreFromMatch(desired: Utf8, key: Utf8, m: nat, n: nat, pos: nat)
    requires n <= m <= |desired| && BestMatch(desired, key, n, pos)
    ensures ScoreFrom(desired, key, m) == Wrap((47 - pos) + n * 48)
  {
    if m > n { ScoreFromMatch(desired, key, m - 1, n, pos); }
  }

  /** For addresses of any length: the score tells the best match if and only if that lies
      within the first 48 places; later the unsigned `47 - pos` wraps. */
  lemma {:induction false} ScorePacks(desired: Utf8, key: Utf8, n: nat, pos: nat)
    requires BestMatch(desired, key, n, pos) && n * 48 + 47 <= U64_MAX
    ensures Score(desired, key) == Wrap((47 - pos) + n * 48)
    ensures var score := Score(desired, key);
      n == score / 48 && pos == 47 - score % 48 <==> pos <= 47
  {
    ScoreFromMatch(desired, key, |desired|, n, pos);
    if pos <= 47 { SmallWrap((47 - pos) + n * 48); }
  }

  lemma Fits(key: Utf8, pattern: Utf8, pos: nat)
    requires OccursAt(key, pattern, pos)
    ensures pos + |pattern| <= |key|
  {
  }

  lemma Pack(n: nat, pos: nat)
    requires pos <= 47
    ensures ((47 - pos) + n * 48) / 48 == n && ((47 - pos) + n * 48) % 48 == 47 - pos
  {
  }

  lemma {:induction false} ScoreFromExact(desired: Utf8, key: Utf8, n: nat)
    requires |key| <= 48 && n <= |desired|
    requires forall m: nat, q: nat :: n < m <= |desired| ==> !OccursAt(key, desired[..m], q)
    ensures var score := ScoreFrom(desired, key, n);
      if score == 0 then NoMatch(desired, key)
      else score > 0 && BestMatch(desired, key, score / 48, 47 - score % 48)
  {
    hide Wrap, OccursAt;
    if n > 0 {
      var found := Find(key, desired[..n], 0);
      if found.None? {
        ScoreFromExact(desired, key, n - 1);
      } else {
        Fits(key, desired[..n], found.value);
        SmallWrap((47 - found.value) + n * 48);
        Pack(n, found.value);
      }
    }
  }

  /** The score packs the best match without loss: it is zero just when no prefix occurs,
      and otherwise its quotient by 48 is the matched length and its remainder tells the
      position. */
  lemma {:induction false} ScoreExact(desired: Utf8, key: Utf8)
    requires |key| <= 48
    ensures Score(desired, key) == 0 <==> NoMatch(desired, key)
    ensures Score(desired, key) == 0 <==> (desired == [] || desired[0] !in key)
    ensures var score := Score(desired, key);
      score != 0 ==> score > 0 && BestMatch(desired, key, score / 48, 47 - score % 48)
  {
    ScoreFromExact(desired, key, |desired|);
    if desired != [] && desired[0] in key {
      var q: nat :| q < |key| && key[q] == desired[0];
      assert OccursAt(key, desired[..1], q);
    } else if desired != [] {
      forall m: nat, q: nat | 0 < m <= |desired| ensures !OccursAt(key, desired[..m], q) {
        BytesOfKey(key, desired[..m], q, 0);
      }
    }
  }

  lemma {:induction false} BestMatchScore(desired: Utf8, key: Utf8, n: nat, pos: nat)
    requires |key| <= 48 && BestMatch(desired, key, n, pos)
    ensures Score(desired, key) == (47 - pos) + n * 48 && pos <= 47
  {
    ScoreExact(desired, key);
    var score := Score(desired, key);
    var n', pos' := score / 48, 47 - score % 48;
    assert OccursAt(key, desired[..n], pos) && OccursAt(key, desired[..n'], pos');
    assert n == n';
  }

  /** Scores order addresses exactly by longest matched prefix, then by earliest place. */
  lemma {:induction false} ScoreOrders(desired: Utf8, k: Utf8, n: nat, p: nat, k': Utf8, n': nat, p': nat)
    requires |k| <= 48 && |k'| <= 48
    requires BestMatch(desired, k, n, p) && BestMatch(desired, k', n', p')
    ensures Score(desired, k) > Score(desired, k') <==> n > n' || (n == n' && p < p')
    ensures Score(desired, k) == Score(desired, k') <==> n == n' && p == p'
  {
    hide Score, BestMatch;
    BestMatchScore(desired, k, n, p);
    BestMatchScore(desired, k', n', p');
  }

  // ---- The search ----

  /** An ASCII character of base58: alphanumeric, but not 0, l, I or O. */
  predicate ValidateBase58(b: byte) {
    var c := b as char;
    ('0' <= c <= '9' || 'a' <= c <= 'z' || 'A' <= c <= 'Z') && c !in "0lIO"
  }

  const ALPHABET := "123456789" + "ABCDEFGH" + "JKLMN" + "PQRSTUVWXYZ" + "abcdefghijk" + "mnopqrstuvwxyz"

  lemma InRun(s: string, first: char, c: char)
    requires forall i :: 0 <= i < |s| ==> s[i] as int == first as int + i
    ensures c in s <==> first as int <= c as int < first as int + |s|
  {
    if first as int <= c as int < first as int + |s| {
      assert s[c as int - first as int] == c;
    }
  }

  /** The check of a character leaves exactly the 58 characters of the alphabet. */
  lemma Base58Alphabet(b: byte)
    ensures |ALPHABET| == 58 && (ValidateBase58(b) <==> b as char in ALPHABET)
  {
    var c := b as char;
    InRun("123456789", '1', c);
    InRun("ABCDEFGH", 'A', c);
    InRun("JKLMN", 'J', c);
    InRun("PQRSTUVWXYZ", 'P', c);
    InRun("abcdefghijk", 'a', c);
    InRun("mnopqrstuvwxyz", 'm', c);
  }

  function GoodWaypoint(done: nat): (r: nat)
    ensures r > 0
  {
    if done <= 1_000_000 then 100_000
    else if done <= 10_000_000 then 1_000_000
    else if done <= 100_000_000 then 10_000_000
    else 100_000_000
  }

  /** The random source, indexed by the candidate it is drawn for, the address of a seed,
      and which strings have only alphanumeric characters beyond ASCII. */
  datatype World = World(
    seedLength: nat,
    random: nat -> seq<byte>,
    address: seq<byte> -> Utf8,
    alphanumeric: Utf8 -> bool)

  ghost predicate Wellformed(world: World) {
    && (forall n :: |world.random(n)| == world.seedLength)
    && (forall seed :: |world.address(seed)| <= 48 && Ascii(world.address(seed)))
  }

  lemma WorldIs(world: World, n: nat, seed: seq<byte>)
    requires Wellformed(world)
    ensures |world.random(n)| == world.seedLength && |world.address(seed)| <= 48 && Ascii(world.address(seed))
  {
  }

  /** What the check of the pattern lets through. It admits letters beyond ASCII. */
  predicate Acceptable(world: World, s: Utf8) {
    && s != [] && (forall i :: 0 <= i < |s| && s[i] < 0x80 ==> ValidateBase58(s[i]))
    && (Ascii(s) || world.alphanumeric(s))
  }

  lemma AcceptableExactly(world: World, s: Utf8)
    ensures Acceptable(world, s) <==>
      && s != [] && (forall i :: 0 <= i < |s| && s[i] < 0x80 ==> s[i] as char in ALPHABET)
      && ((forall i :: 0 <= i < |s| ==> s[i] < 0x80) || world.alphanumeric(s))
  {
    hide ValidateBase58;
    forall b: byte ensures ValidateBase58(b) <==> b as char in ALPHABET { Base58Alphabet(b); }
  }

  const RESEED := 100_000

  /** The `n`-th seed tried: a fresh draw every 100000, and a walk in between. */
  function Candidate(world: World, n: nat): seq<byte> {
    Walk(world.random(n - n % RESEED), n % RESEED)
  }

  function ScoreOf(world: World, desired: Utf8, n: nat): nat {
    Score(desired, world.address(Candidate(world, n)))
  }

  function Top(desired: Utf8): nat { 45 + |desired| * 48 }

  /** Between two draws no seed is tried twice. */
  lemma {:induction false} CandidatesDistinct(world: World, i: nat, j: nat)
    requires Wellformed(world) && world.seedLength >= 3
    requires i < j && i / RESEED == j / RESEED
    ensures Candidate(world, i) != Candidate(world, j)
  {
    hide Walk;
    var base := i - i % RESEED;
    assert base == j - j % RESEED;
    Powers();
    PowerGrows(3, world.seedLength);
    WalkDistinct(world.random(base), i % RESEED, j % RESEED);
  }

  lemma {:induction false} PowerGrows(m: nat, n: nat)
    requires m <= n
    ensures Pow256(m) <= Pow256(n)
  {
    if m < n { PowerGrows(m, n - 1); }
  }

  lemma {:induction false} TopIsMatch(desired: Utf8, key: Utf8)
    requires |key| <= 48 && Score(desired, key) >= Top(desired)
    ensures OccursAt(key, desired, 0) || OccursAt(key, desired, 1) || OccursAt(key, desired, 2)
  {
    hide Score, OccursAt;
    ScoreExact(desired, key);
    var score := Score(desired, key);
    var n, pos := score / 48, 47 - score % 48;
    assert n == |desired| && pos <= 2;
    assert desired[..n] == desired;
  }

  lemma {:induction false} MatchIsTop(desired: Utf8, key: Utf8, pos: nat)
    requires |key| <= 48 && desired != [] && pos <= 2 && OccursAt(key, desired, pos)
    requires forall q: nat :: q < pos ==> !OccursAt(key, desired, q)
    ensures Score(desired, key) >= Top(desired)
  {
    hide Score, OccursAt;
    assert desired[..|desired|] == desired;
    assert BestMatch(desired, key, |desired|, pos);
    BestMatchScore(desired, key, |desired|, pos);
  }

  /** A score reaches the threshold exactly when the address has the whole pattern at one
      of its first three places. */
  lemma {:induction false} TopExactly(desired: Utf8, key: Utf8)
    requires |key| <= 48 && desired != []
    ensures Score(desired, key) >= Top(desired) <==>
      OccursAt(key, desired, 0) || OccursAt(key, desired, 1) || OccursAt(key, desired, 2)
  {
    hide Score, OccursAt, Top;
    if Score(desired, key) >= Top(desired) {
      TopIsMatch(desired, key);
    } else if OccursAt(key, desired, 0) {
      MatchIsTop(desired, key, 0);
    } else if OccursAt(key, desired, 1) {
      MatchIsTop(desired, key, 1);
    } else if OccursAt(key, desired, 2) {
      MatchIsTop(desired, key, 2);
    }
  }

  datatype Outcome =
    | EmptyPattern
    | BadPattern
    | Panicked
    | Found(seed: seq<byte>, score: nat)
    | Searching(best: nat)

  datatype Progress = Progress(done: nat, best: nat)

  /** The best score among the first `n` candidates, none counting as zero. */
  function Best(world: World, desired: Utf8, n: nat): (b: nat)
    ensures forall m: nat :: m < n ==> ScoreOf(world, desired, m) <= b
    ensures b == 0 || exists m: nat :: m < n && ScoreOf(world, desired, m) == b
  {
    if n == 0 then 0 else
    var b := Best(world, desired, n - 1);
    if ScoreOf(world, desired, n - 1) > b then ScoreOf(world, desired, n - 1) else b
  }

  method FillBytes(seed: array<byte>, bytes: seq<byte>)
    requires |bytes| == seed.Length
    modifies seed
    ensures seed[..] == bytes
  {
    for i := 0 to seed.Length
      invariant seed[..i] == bytes[..i]
    {
      seed[i] := bytes[i];
    }
  }

  /** A candidate is a fresh draw at every multiple of 100000 and else follows the last. */
  lemma CandidateStep(world: World, n: nat)
    ensures n % 100_000 == 0 ==> Candidate(world, n) == world.random(n)
    ensures n % 100_000 != 0 ==> Candidate(world, n) == Successor(Candidate(world, n - 1))
  {
    hide Successor;
    if n % RESEED != 0 {
      assert (n - 1) % RESEED == n % RESEED - 1;
    }
  }

  /** The best score as the search shows it after `n` candidates: for patterns of two
      characters or more the best so far, for a single character just the latest one. */
  function Shown(world: World, desired: Utf8, n: nat): nat {
    if |desired| >= 2 then Best(world, desired, n)
    else if n > 0 then ScoreOf(world, desired, n - 1) else 0
  }

  /** The progress lines due in the course of `n` candidates. */
  function Lines(world: World, desired: Utf8, n: nat): seq<Progress> {
    if n == 0 then [] else
    Lines(world, desired, n - 1) +
    (if n % GoodWaypoint(n) == 0 then [Progress(n, Shown(world, desired, n))] else [])
  }

  /** One more candidate: what is then shown, and the line it brings. */
  lemma SearchStep(world: World, desired: Utf8, n: nat)
    ensures Shown(world, desired, 0) == 0 && Lines(world, desired, 0) == []
    ensures var score, shown := ScoreOf(world, desired, n), Shown(world, desired, n + 1);
      && shown == (if score > Shown(world, desired, n) || |desired| < 2 then score else Shown(world, desired, n))
      && Lines(world, desired, n + 1) == Lines(world, desired, n) +
           (if (n + 1) % GoodWaypoint(n + 1) == 0 then [Progress(n + 1, shown)] else [])
  {
    hide ScoreOf, GoodWaypoint;
  }

  /** A multiple of 100000, past a million of a million, and so on. */
  predicate Waypoint(d: int) {
    && d % 100_000 == 0 && (d > 1_000_000 ==> d % 1_000_000 == 0)
    && (d > 10_000_000 ==> d % 10_000_000 == 0) && (d > 100_000_000 ==> d % 100_000_000 == 0)
  }

  lemma WaypointExactly(n: nat)
    ensures n % GoodWaypoint(n) == 0 <==> Waypoint(n)
  {
  }

  function Dones(lines: seq<Progress>): set<int> { set k | 0 <= k < |lines| :: lines[k].done }

  lemma DonesSnoc(lines: seq<Progress>, line: Progress)
    ensures Dones(lines + [line]) == Dones(lines) + {line.done}
  {
    forall d | d in Dones(lines) + {line.done} ensures d in Dones(lines + [line]) {
      if d == line.done {
        assert (lines + [line])[|lines|].done == d;
      } else {
        var k :| 0 <= k < |lines| && lines[k].done == d;
        assert (lines + [line])[k].done == d;
      }
    }
  }

  /** The lines come in order, show the score of their moment, and are those of the
      waypoints passed, each once. */
  lemma {:induction false} LinesExactly(world: World, desired: Utf8, n: nat)
    ensures var lines := Lines(world, desired, n);
      && (forall k :: 0 <= k < |lines| ==>
            0 < lines[k].done <= n && lines[k].best == Shown(world, desired, lines[k].done))
      && (forall j, k :: 0 <= j < k < |lines| ==> lines[j].done < lines[k].done)
      && Dones(lines) == set d | 0 < d <= n && Waypoint(d)
  {
    hide Shown, GoodWaypoint, Waypoint, Dones;
    if n > 0 {
      LinesExactly(world, desired, n - 1);
      WaypointExactly(n);
      assert Lines(world, desired, n - 1) + [] == Lines(world, desired, n - 1);
      DonesSnoc(Lines(world, desired, n - 1), Progress(n, Shown(world, desired, n)));
      assert (set d | 0 < d <= n && Waypoint(d)) ==
        (set d | 0 < d <= n - 1 && Waypoint(d)) + if Waypoint(n) then {n} else {};
    } else {
      NoDones();
    }
  }

  lemma NoDones()
    ensures Dones([]) == {}
  {
  }

  lemma ShownExactly(world: World, desired: Utf8, n: nat)
    ensures |desired| >= 2 ==> forall m: nat :: m < n ==> ScoreOf(world, desired, m) <= Shown(world, desired, n)
    ensures |desired| >= 2 ==> || Shown(world, desired, n) == 0
                               || exists m: nat :: m < n && ScoreOf(world, desired, m) == Shown(world, desired, n)
    ensures |desired| < 2 ==> Shown(world, desired, n) == if n > 0 then ScoreOf(world, desired, n - 1) else 0
  {
    hide ScoreOf;
  }

  /** The lines of a search in terms of scores and numbers. */
  lemma {:induction false} LinesShow(world: World, desired: Utf8, n: nat)
    ensures forall k :: 0 <= k < |Lines(world, desired, n)| ==> 0 < Lines(world, desired, n)[k].done <= n
    ensures |desired| >= 2 ==> forall k, m: nat ::
      0 <= k < |Lines(world, desired, n)| && m < Lines(world, desired, n)[k].done ==>
        ScoreOf(world, desired, m) <= Lines(world, desired, n)[k].best
    ensures |desired| >= 2 ==> forall k ::
      0 <= k < |Lines(world, desired, n)| && Lines(world, desired, n)[k].best != 0 ==>
        exists m: nat :: && m < Lines(world, desired, n)[k].done
                         && ScoreOf(world, desired, m) == Lines(world, desired, n)[k].best
    ensures |desired| < 2 ==> forall k :: 0 <= k < |Lines(world, desired, n)| ==>
      Lines(world, desired, n)[k].best == ScoreOf(world, desired, Lines(world, desired, n)[k].done - 1)
    ensures forall j, k :: 0 <= j < k < |Lines(world, desired, n)| ==>
      Lines(world, desired, n)[j].done < Lines(world, desired, n)[k].done
    ensures (set k | 0 <= k < |Lines(world, desired, n)| :: Lines(world, desired, n)[k].done) ==
      set d | 0 < d <= n && d % 100_000 == 0 && (d > 1_000_000 ==> d % 1_000_000 == 0)
        && (d > 10_000_000 ==> d % 10_000_000 == 0) && (d > 100_000_000 ==> d % 100_000_000 == 0)
  {
    hide Lines, Shown, ScoreOf;
    LinesExactly(world, desired, n);
    forall d: nat { ShownExactly(world, desired, d); }
  }

  /** The search watched for `limit` candidates. It stops at the first whose score reaches
      the threshold, and whose address then has the pattern within its first three places;
      with no such candidate it is still searching. A pattern that the check admits although
      it is not ASCII ends in a panic at the first candidate. Of two characters or more it
      shows the best score so far, of one the latest. */
  method GenerateKey(world: World, desired: Utf8, limit: nat)
    returns (outcome: Outcome, tries: nat, reports: seq<Progress>)
    requires Wellformed(world) && IsUtf8(desired)
    ensures outcome == EmptyPattern <==> desired == []
    ensures outcome == BadPattern <==> desired != [] && !Acceptable(world, desired)
    ensures outcome == Panicked <==> Acceptable(world, desired) && !Ascii(desired) && limit > 0
    ensures !Acceptable(world, desired) || !Ascii(desired) ==> tries == 0
    ensures Acceptable(world, desired) && Ascii(desired) ==>
      && tries <= limit && (forall m: nat :: m < tries ==> ScoreOf(world, desired, m) < Top(desired))
      && (tries < limit ==>
            && outcome == Found(Candidate(world, tries), ScoreOf(world, desired, tries))
            && outcome.score >= Top(desired)
            && exists pos: nat :: pos <= 2 && OccursAt(world.address(outcome.seed), desired, pos))
      && (tries == limit ==> outcome.Searching?)
    ensures outcome.Searching? && |desired| >= 2 ==>
      && (forall m: nat :: m < tries ==> ScoreOf(world, desired, m) <= outcome.best)
      && (outcome.best == 0 || exists m: nat :: m < tries && ScoreOf(world, desired, m) == outcome.best)
    ensures outcome.Searching? && |desired| == 1 ==>
      outcome.best == if tries > 0 then ScoreOf(world, desired, tries - 1) else 0
    ensures forall k :: 0 <= k < |reports| ==> 0 < reports[k].done <= tries
    ensures |desired| >= 2 ==>
      && (forall k, m: nat :: 0 <= k < |reports| && m < reports[k].done ==>
            ScoreOf(world, desired, m) <= reports[k].best)
      && (forall k :: 0 <= k < |reports| && reports[k].best != 0 ==>
            exists m: nat :: m < reports[k].done && ScoreOf(world, desired, m) == reports[k].best)
    ensures |desired| == 1 ==>
      forall k :: 0 <= k < |reports| ==> reports[k].best == ScoreOf(world, desired, reports[k].done - 1)
    ensures forall j, k :: 0 <= j < k < |reports| ==> reports[j].done < reports[k].done
    ensures (set k | 0 <= k < |reports| :: reports[k].done) ==
      set d | 0 < d <= tries && d % 100_000 == 0 && (d > 1_000_000 ==> d % 1_000_000 == 0)
        && (d > 10_000_000 ==> d % 10_000_000 == 0) && (d > 100_000_000 ==> d % 100_000_000 == 0)
  {
    hide Score, Candidate, Successor, Panics, Lines, Shown, GoodWaypoint, OccursAt, IsUtf8, Wellformed;
    tries, reports := 0, [];
    if desired == [] { return EmptyPattern, tries, reports; }
    if !Acceptable(world, desired) { return BadPattern, tries, reports; }

    var top := Top(desired);
    var best := 0;
    var seed := new byte[world.seedLength];
    SearchStep(world, desired, 0);
    while tries < limit
      invariant tries <= limit && (tries > 0 ==> Ascii(desired))
      invariant seed.Length == world.seedLength
      invariant tries > 0 ==> seed[..] == Candidate(world, tries - 1)
      invariant best < top
      invariant forall m: nat :: m < tries ==> ScoreOf(world, desired, m) < top
      invariant best == Shown(world, desired, tries)
      invariant reports == Lines(world, desired, tries)
    {
      WorldIs(world, tries, Candidate(world, tries));
      CandidateStep(world, tries);
      SearchStep(world, desired, tries);
      if tries % RESEED == 0 {
        FillBytes(seed, world.random(tries));
      } else {
        NextSeed(seed);
      }
      PanicsExactly(desired, world.address(seed[..]));
      var scored := CalculateScore(desired, world.address(seed[..]));
      if scored.None? { return Panicked, tries, reports; }
      var score := scored.value;
      if score > best || |desired| < 2 {
        best := score;
        if best >= top {
          TopExactly(desired, world.address(seed[..]));
          LinesShow(world, desired, tries);
          return Found(seed[..], score), tries, reports;
        }
      }
      tries := tries + 1;
      if tries % GoodWaypoint(tries) == 0 {
        reports := reports + [Progress(tries, best)];
      }
    }
    ShownExactly(world, desired, tries);
    LinesShow(world, desired, tries);
    return Searching(best), tries, reports;
  }
}

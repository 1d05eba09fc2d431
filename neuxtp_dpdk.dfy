/** neuxtp_dpdk.c: one burst of lcore_main. The buffers received on port 0, queue
    0 are handled in order; for each one the predictor's reply is read back with
    fgets into a 10-byte buffer, parsed with atoi, and the buffer is transmitted
    on port 0, queue 0 when the score exceeds 70 and freed otherwise. */
module NeuxtpDpdk {
  import opened Bytes
  import opened Mbufs

  /** BURST_SIZE, the length of bufs[] and the most rte_eth_rx_burst may return. */
  const BURST_SIZE: nat := 32
  /** sizeof(result): fgets reads at most one character fewer. */
  const RESULT_SIZE: nat := 10
  /** A buffer is forwarded when its score is strictly above this. */
  const FORWARD_THRESHOLD: int := 70
  /** The only port and queue lcore_main receives on and transmits to. */
  const PORT: uint16 := 0
  const QUEUE: uint16 := 0

  // ---------------------------------------------------------------------------
  // Reading the reply: fgets

  /** What fgets(result, size, rf) leaves in result when the file holds s: the
      characters up to and including the first newline, but never more than
      size - 1 of them. */
  function Fgets(s: string, size: nat): (r: string)
    requires size >= 1
    ensures |r| <= size - 1 && |r| <= |s| && r == s[..|r|]
    ensures forall i :: 0 <= i < |r| - 1 ==> r[i] != '\n'
    ensures |r| == size - 1 || |r| == |s| || (|r| > 0 && r[|r| - 1] == '\n')
    decreases size
  {
    if size == 1 || |s| == 0 then []
    else if s[0] == '\n' then ['\n']
    else [s[0]] + Fgets(s[1..], size - 1)
  }

  /** With no newline among the characters fgets may read, it reads all of them. */
  lemma FgetsWithoutNewline(s: string, size: nat)
    requires size >= 1
    requires forall i :: 0 <= i < |s| && i < size - 1 ==> s[i] != '\n'
    ensures Fgets(s, size) == if |s| < size - 1 then s else s[..size - 1]
  {
    var r := Fgets(s, size);
    if 0 < |r| {
      assert r[|r| - 1] == s[|r| - 1];
    }
  }

  /** A reply whose first line fits in the buffer is read up to and including its
      newline, and no further. */
  lemma {:induction false} FgetsLine(line: string, rest: string, size: nat)
    requires |line| + 2 <= size
    requires forall i :: 0 <= i < |line| ==> line[i] != '\n'
    ensures Fgets(line + "\n" + rest, size) == line + "\n"
    decreases |line|
  {
    var s := line + "\n" + rest;
    if |line| == 0 {
      assert s[0] == '\n';
    } else {
      assert s[0] == line[0];
      assert s[1..] == line[1..] + "\n" + rest;
      FgetsLine(line[1..], rest, size - 1);
    }
  }

  // ---------------------------------------------------------------------------
  // Parsing the score: atoi (section 7.22.1.2 of C11, through strtol with base 10)

  /** isspace in the C locale: space, \t, \n, \v, \f and \r. */
  predicate IsSpace(c: char)
  {
    c == ' ' || c == '\t' || c == '\n' || c == '\U{000B}' || c == '\U{000C}' || c == '\r'
  }

  predicate IsDigit(c: char)
  {
    '0' <= c <= '9'
  }

  predicate AllDigits(s: string)
  {
    forall i :: 0 <= i < |s| ==> IsDigit(s[i])
  }

  function DigitValue(c: char): (v: nat)
    requires IsDigit(c)
    ensures v < 10
  {
    c as int - '0' as int
  }

  /** 10^k; a helper for the digit bounds. Its ensures only keeps the bounds
      below free of a separate positivity lemma. */
  function Pow10(k: nat): (p: nat)
    ensures p >= 1
  {
    if k == 0 then 1 else 10 * Pow10(k - 1)
  }

  lemma {:induction false} Pow10Monotone(j: nat, k: nat)
    requires j <= k
    ensures Pow10(j) <= Pow10(k)
    decreases k
  {
    if j < k {
      Pow10Monotone(j, k - 1);
    }
  }

  /** The input with its leading white space removed. */
  function SkipSpace(s: string): (r: string)
    ensures |r| <= |s| && r == s[|s| - |r|..]
    ensures forall i :: 0 <= i < |s| - |r| ==> IsSpace(s[i])
    ensures r == [] || !IsSpace(r[0])
  {
    if |s| > 0 && IsSpace(s[0]) then
      var r := SkipSpace(s[1..]);
      assert forall i :: 1 <= i < |s| ==> s[i] == s[1..][i - 1];
      assert s[1..][|s| - 1 - |r|..] == s[|s| - |r|..];
      r
    else s
  }

  /** The longest prefix of decimal digits. */
  function LeadingDigits(s: string): (r: string)
    ensures |r| <= |s| && r == s[..|r|] && AllDigits(r)
    ensures |r| == |s| || !IsDigit(s[|r|])
  {
    if |s| > 0 && IsDigit(s[0]) then [s[0]] + LeadingDigits(s[1..]) else []
  }

  /** The value of a digit string, most significant digit first. */
  function DigitsValue(ds: string): (v: nat)
    requires AllDigits(ds)
    ensures v < Pow10(|ds|)
  {
    if |ds| == 0 then 0
    else DigitsValue(ds[..|ds| - 1]) * 10 + DigitValue(ds[|ds| - 1])
  }

  /** The digits after an optional sign, and whether that sign was '-'. */
  function Magnitude(t: string): (ds: string)
    ensures AllDigits(ds) && |ds| <= |t|
  {
    if |t| > 0 && (t[0] == '-' || t[0] == '+') then LeadingDigits(t[1..]) else LeadingDigits(t)
  }

  /** atoi: skip white space, take an optional sign, then as many digits as follow;
      0 when no digit follows. */
  function Atoi(s: string): int
  {
    var t := SkipSpace(s);
    var ds := Magnitude(t);
    if |t| > 0 && t[0] == '-' then -(DigitsValue(ds) as int) else DigitsValue(ds)
  }

  /** The magnitude atoi returns has no more digits than its input has characters. */
  lemma AtoiBound(s: string)
    ensures -(Pow10(|s|) as int) < Atoi(s) < Pow10(|s|)
  {
    var ds := Magnitude(SkipSpace(s));
    Pow10Monotone(|ds|, |s|);
  }

  /** The score lcore_main computes from the predictor's output file holding reply. */
  function ScoreOf(reply: string): int
  {
    Atoi(Fgets(reply, RESULT_SIZE))
  }

  /** The gate: atoi(result) > 70. */
  predicate Forwards(score: int)
  {
    score > FORWARD_THRESHOLD
  }

  /** At most nine characters reach atoi, so every score lies strictly between
      -10^9 and 10^9 and fits the int atoi returns. */
  lemma ScoreBound(reply: string)
    ensures -1_000_000_000 < ScoreOf(reply) < 1_000_000_000
  {
    var r := Fgets(reply, RESULT_SIZE);
    AtoiBound(r);
    Pow10Monotone(|r|, 9);
    assert Pow10(9) == 1_000_000_000;
  }

  /** When no digit follows the white space and the optional sign, the score is 0
      and the buffer is freed. */
  lemma NoDigitsScoresZero(s: string)
    requires var t := SkipSpace(s);
      var u := if |t| > 0 && (t[0] == '-' || t[0] == '+') then t[1..] else t;
      u == [] || !IsDigit(u[0])
    ensures Atoi(s) == 0 && !Forwards(Atoi(s))
  {
    var t := SkipSpace(s);
    var u := if |t| > 0 && (t[0] == '-' || t[0] == '+') then t[1..] else t;
    assert LeadingDigits(u) == [];
  }

  /** Leading white space does not change the score. */
  lemma AtoiSkipsSpace(w: string, s: string)
    requires forall i :: 0 <= i < |w| ==> IsSpace(w[i])
    ensures Atoi(w + s) == Atoi(s)
  {
    SkipSpaceOver(w, s);
  }

  lemma {:induction false} SkipSpaceOver(w: string, s: string)
    requires forall i :: 0 <= i < |w| ==> IsSpace(w[i])
    ensures SkipSpace(w + s) == SkipSpace(s)
    decreases |w|
  {
    if |w| > 0 {
      assert (w + s)[1..] == w[1..] + s;
      SkipSpaceOver(w[1..], s);
    } else {
      assert w + s == s;
    }
  }

  /** The digits of a string that starts with a digit string ds are ds, when what
      follows ds is not a digit. */
  lemma LeadingDigitsOf(ds: string, rest: string)
    requires AllDigits(ds)
    requires rest == [] || !IsDigit(rest[0])
    ensures LeadingDigits(ds + rest) == ds
  {
    var s := ds + rest;
    assert forall i :: 0 <= i < |ds| ==> IsDigit(s[i]);
    assert |s| == |ds| || !IsDigit(s[|ds|]);
    assert s[..|ds|] == ds;
  }

  // ---------------------------------------------------------------------------
  // What a predictor prints: a number in decimal followed by a newline

  function DigitChar(d: nat): (c: char)
    requires d < 10
    ensures IsDigit(c) && DigitValue(c) == d
  {
    ('0' as int + d) as char
  }

  /** The decimal numeral of n, without leading zeros. */
  function Itoa(n: nat): (s: string)
    ensures |s| >= 1 && AllDigits(s)
  {
    if n < 10 then [DigitChar(n)] else Itoa(n / 10) + [DigitChar(n % 10)]
  }

  lemma {:induction false} ItoaValue(n: nat)
    ensures DigitsValue(Itoa(n)) == n
  {
    if n >= 10 {
      var s := Itoa(n);
      assert s[..|s| - 1] == Itoa(n / 10);
      ItoaValue(n / 10);
    }
  }

  lemma {:induction false} ItoaLength(n: nat, k: nat)
    requires k >= 1 && n < Pow10(k)
    ensures |Itoa(n)| <= k
  {
    if n >= 10 {
      assert k >= 2 by {
        assert Pow10(1) == 10;
        if k == 1 {
        }
      }
      ItoaLength(n / 10, k - 1);
    }
  }

  /** A digit string that is not followed by a digit parses to its value. */
  lemma AtoiOfDigits(ds: string, rest: string)
    requires |ds| >= 1 && AllDigits(ds)
    requires rest == [] || !IsDigit(rest[0])
    ensures Atoi(ds + rest) == DigitsValue(ds)
  {
    var s := ds + rest;
    assert s[0] == ds[0];
    AtoiUnsigned(s);
    LeadingDigitsOf(ds, rest);
  }

  /** A string that starts with a digit parses to the value of its leading digits. */
  lemma AtoiUnsigned(s: string)
    requires |s| > 0 && IsDigit(s[0])
    ensures Atoi(s) == DigitsValue(LeadingDigits(s))
  {
    assert !IsSpace(s[0]);
    assert SkipSpace(s) == s;
    assert s[0] != '-' && s[0] != '+';
    assert Magnitude(s) == LeadingDigits(s);
  }

  /** A sign character and what follows it: the magnitude is the digits after
      the sign, negated for '-'. */
  lemma AtoiSign(c: char, u: string)
    requires c == '-' || c == '+'
    ensures Atoi([c] + u) == if c == '-' then -(DigitsValue(LeadingDigits(u)) as int) else DigitsValue(LeadingDigits(u))
  {
    var t := [c] + u;
    assert !IsSpace(t[0]);
    assert SkipSpace(t) == t;
    assert t[1..] == u;
    assert Magnitude(t) == LeadingDigits(u);
  }

  /** A helper: sequence concatenation regrouped after a leading character. */
  lemma PrependAppend(c: char, a: string, b: string)
    ensures [c] + a + b == [c] + (a + b)
  {
  }

  /** A sign followed by a digit string that is not followed by a digit: '-'
      negates the value and '+' keeps it. */
  lemma AtoiSigned(ds: string, rest: string)
    requires |ds| >= 1 && AllDigits(ds)
    requires rest == [] || !IsDigit(rest[0])
    ensures Atoi("-" + ds + rest) == -(DigitsValue(ds) as int)
    ensures Atoi("+" + ds + rest) == DigitsValue(ds)
  {
    LeadingDigitsOf(ds, rest);
    PrependAppend('-', ds, rest);
    PrependAppend('+', ds, rest);
    AtoiSign('-', ds + rest);
    AtoiSign('+', ds + rest);
  }

  /** fgets on a numeral of at most nine digits and its newline: the newline is
      kept when it fits in the buffer. */
  lemma FgetsNumeral(ds: string)
    requires 1 <= |ds| <= 9 && AllDigits(ds)
    ensures Fgets(ds + "\n", RESULT_SIZE) == if |ds| < 9 then ds + "\n" else ds
  {
    var reply := ds + "\n";
    if |ds| < 9 {
      assert reply == ds + "\n" + [];
      FgetsLine(ds, [], RESULT_SIZE);
    } else {
      assert forall i :: 0 <= i < 9 ==> reply[i] == ds[i];
      FgetsWithoutNewline(reply, RESULT_SIZE);
      assert reply[..9] == ds;
    }
  }

  /** A reply holding a number below 10^9 printed with a trailing newline scores
      exactly that number. */
  lemma ScoreOfPrinted(n: nat)
    requires n < 1_000_000_000
    ensures ScoreOf(Itoa(n) + "\n") == n
  {
    var ds := Itoa(n);
    assert Pow10(9) == 1_000_000_000;
    ItoaLength(n, 9);
    FgetsNumeral(ds);
    if |ds| < 9 {
      AtoiOfDigits(ds, "\n");
    } else {
      assert ds + [] == ds;
      AtoiOfDigits(ds, []);
    }
    ItoaValue(n);
  }

  /** The threshold: a reply of 70 is freed and a reply of 71 is forwarded. */
  lemma GateBoundary()
    ensures ScoreOf("70\n") == 70 && !Forwards(ScoreOf("70\n"))
    ensures ScoreOf("71\n") == 71 && Forwards(ScoreOf("71\n"))
  {
    assert DigitChar(7) == '7' && DigitChar(0) == '0' && DigitChar(1) == '1';
    assert Itoa(7) == ['7'];
    assert Itoa(70) == Itoa(7) + ['0'] && Itoa(71) == Itoa(7) + ['1'];
    assert Itoa(70) + "\n" == "70\n" && Itoa(71) + "\n" == "71\n";
    ScoreOfPrinted(70);
    ScoreOfPrinted(71);
  }

  /** A burst whose predictor printed the numbers ns (each below 10^9, with a
      trailing newline): buffer i is forwarded iff ns[i] exceeds 70. */
  lemma GateOfPrinted(ns: seq<nat>)
    requires forall i :: 0 <= i < |ns| ==> ns[i] < 1_000_000_000
    ensures var g := Gate(seq(|ns|, i requires 0 <= i < |ns| => Itoa(ns[i]) + "\n"));
      |g| == |ns| && forall i :: 0 <= i < |ns| ==> (g[i] <==> ns[i] > 70)
  {
    var replies := seq(|ns|, i requires 0 <= i < |ns| => Itoa(ns[i]) + "\n");
    forall i | 0 <= i < |ns|
      ensures Gate(replies)[i] <==> ns[i] > 70
    {
      ScoreOfPrinted(ns[i]);
    }
  }

  // ---------------------------------------------------------------------------
  // One burst

  /** The gate decision for each reply of a burst, in order. */
  function Gate(replies: seq<string>): (g: seq<bool>)
    ensures |g| == |replies|
    ensures forall i :: 0 <= i < |replies| ==> g[i] == Forwards(ScoreOf(replies[i]))
  {
    seq(|replies|, i requires 0 <= i < |replies| => Forwards(ScoreOf(replies[i])))
  }

  /** The buffers of a burst whose gate decision is `forward`, in burst order;
      gate[i] is the decision for burst[i]. */
  function Selected(burst: seq<Mbuf>, gate: seq<bool>, forward: bool): (r: seq<Mbuf>)
    requires |burst| <= |gate|
    ensures |r| <= |burst|
  {
    if |burst| == 0 then []
    else
      var n := |burst| - 1;
      Selected(burst[..n], gate, forward) + (if gate[n] == forward then [burst[n]] else [])
  }

  /** The transmitted and the freed buffers together are the burst, each once. */
  lemma {:induction false} SelectedPartition(burst: seq<Mbuf>, gate: seq<bool>)
    requires |burst| <= |gate|
    ensures multiset(Selected(burst, gate, true)) + multiset(Selected(burst, gate, false)) == multiset(burst)
  {
    if |burst| > 0 {
      var n := |burst| - 1;
      SelectedPartition(burst[..n], gate);
      assert burst == burst[..n] + [burst[n]];
    }
  }

  /** In a burst of distinct buffers, burst[i] is forwarded exactly when the score
      of its reply exceeds 70 and freed exactly when it does not. */
  lemma SelectedMembership(burst: seq<Mbuf>, replies: seq<string>, i: nat)
    requires |burst| <= |replies| && i < |burst|
    requires forall j, k :: 0 <= j < k < |burst| ==> burst[j] != burst[k]
    ensures burst[i] in Selected(burst, Gate(replies), true) <==> Forwards(ScoreOf(replies[i]))
    ensures burst[i] in Selected(burst, Gate(replies), false) <==> !Forwards(ScoreOf(replies[i]))
  {
    SelectedAt(burst, Gate(replies), i, true);
    SelectedAt(burst, Gate(replies), i, false);
  }

  lemma {:induction false} SelectedAt(burst: seq<Mbuf>, gate: seq<bool>, i: nat, forward: bool)
    requires |burst| <= |gate| && i < |burst|
    requires forall j, k :: 0 <= j < k < |burst| ==> burst[j] != burst[k]
    ensures burst[i] in Selected(burst, gate, forward) <==> gate[i] == forward
    decreases |burst|
  {
    var n := |burst| - 1;
    var prefix := burst[..n];
    var last := if gate[n] == forward then [burst[n]] else [];
    assert Selected(burst, gate, forward) == Selected(prefix, gate, forward) + last;
    SelectedIn(prefix, gate, forward);
    if i < n {
      assert prefix[i] == burst[i];
      SelectedAt(prefix, gate, i, forward);
      assert burst[i] !in last;
    } else {
      assert forall j :: 0 <= j < n ==> prefix[j] != burst[n];
      assert burst[n] !in prefix;
    }
  }

  /** Only buffers of the burst are selected. */
  lemma {:induction false} SelectedIn(burst: seq<Mbuf>, gate: seq<bool>, forward: bool)
    requires |burst| <= |gate|
    ensures forall x :: x in Selected(burst, gate, forward) ==> x in burst
  {
    if |burst| > 0 {
      var n := |burst| - 1;
      SelectedIn(burst[..n], gate, forward);
      assert forall x :: x in burst[..n] ==> x in burst;
    }
  }

  /** The first k elements of s, or all of them when s is shorter. */
  function Take(s: seq<Mbuf>, k: int): (r: seq<Mbuf>)
    ensures |r| == if k < 0 then 0 else if k < |s| then k else |s|
    ensures r == s[..|r|]
  {
    if k < 0 then [] else if k < |s| then s[..k] else s
  }

  /** Offering one more buffer to a transmit queue that has taken the first
      buffers of s, as many as fitted: it is taken exactly when one more fits. */
  lemma TakeAppend(ring0: seq<Mbuf>, s: seq<Mbuf>, m: Mbuf, capacity: nat)
    requires |ring0| <= capacity
    ensures var ring := ring0 + Take(s, capacity - |ring0|);
      ring0 + Take(s + [m], capacity - |ring0|) == if |ring| < capacity then ring + [m] else ring
  {
    var k := capacity - |ring0|;
    if |s| < k {
      assert Take(s, k) == s;
      assert Take(s + [m], k) == s + [m];
    } else {
      assert (s + [m])[..k] == s[..k];
    }
  }

  ghost function Elements(s: seq<Mbuf>): set<Mbuf>
  {
    set x | x in s
  }

  lemma ElementsAppend(s: seq<Mbuf>, m: Mbuf)
    ensures Elements(s + [m]) == Elements(s) + {m}
  {
  }

  /** The i-th buffer of a burst of distinct outstanding buffers is still
      outstanding after the buffers before it were freed. */
  lemma FreshInBurst(burst: seq<Mbuf>, gate: seq<bool>, i: nat, out: set<Mbuf>)
    requires i < |burst| <= |gate|
    requires forall j :: 0 <= j < |burst| ==> burst[j] in out
    requires forall j, k :: 0 <= j < k < |burst| ==> burst[j] != burst[k]
    ensures burst[i] in out - Elements(Selected(burst[..i], gate, false))
  {
    SelectedIn(burst[..i], gate, false);
    assert forall j :: 0 <= j < i ==> burst[..i][j] != burst[i];
  }

  lemma SelectedStep(burst: seq<Mbuf>, gate: seq<bool>, i: nat, forward: bool)
    requires i < |burst| <= |gate|
    ensures Selected(burst[..i + 1], gate, forward)
         == Selected(burst[..i], gate, forward) + (if gate[i] == forward then [burst[i]] else [])
  {
    assert burst[..i + 1][..i] == burst[..i];
  }

  /** The transmit ring after burst[i] too has been offered, when the ring held
      ring0 and then as many forwarded buffers of burst[..i] as fitted. */
  lemma SentStep(ring0: seq<Mbuf>, burst: seq<Mbuf>, gate: seq<bool>, i: nat, capacity: nat, ring: seq<Mbuf>, ring': seq<Mbuf>)
    requires i < |burst| <= |gate| && |ring0| <= capacity
    requires ring == ring0 + Take(Selected(burst[..i], gate, true), capacity - |ring0|)
    requires ring' == if gate[i] && |ring| < capacity then ring + [burst[i]] else ring
    ensures ring' == ring0 + Take(Selected(burst[..i + 1], gate, true), capacity - |ring0|)
  {
    SelectedStep(burst, gate, i, true);
    if gate[i] {
      TakeAppend(ring0, Selected(burst[..i], gate, true), burst[i], capacity);
    }
  }

  /** The pool after burst[i] too has been handled, when the buffers of burst[..i]
      the gate dropped were freed before it: a dropped burst[i] is still
      outstanding, and freeing it gives the pool with the dropped buffers of
      burst[..i + 1] returned. */
  lemma FreedStep(out0: set<Mbuf>, avail0: nat, burst: seq<Mbuf>, gate: seq<bool>, i: nat, out: set<Mbuf>, avail: nat)
    requires i < |burst| <= |gate|
    requires forall j :: 0 <= j < |burst| ==> burst[j] in out0
    requires forall j, k :: 0 <= j < k < |burst| ==> burst[j] != burst[k]
    requires out == out0 - Elements(Selected(burst[..i], gate, false))
    requires avail == avail0 + |Selected(burst[..i], gate, false)|
    ensures !gate[i] ==> burst[i] in out
    ensures (if gate[i] then out else out - {burst[i]}) == out0 - Elements(Selected(burst[..i + 1], gate, false))
    ensures (if gate[i] then avail else avail + 1) == avail0 + |Selected(burst[..i + 1], gate, false)|
  {
    SelectedStep(burst, gate, i, false);
    if !gate[i] {
      FreshInBurst(burst, gate, i, out0);
      ElementsAppend(Selected(burst[..i], gate, false), burst[i]);
    }
  }

  /** What one burst acts on: the transmit ring of port 0, queue 0, and the pool's
      outstanding buffers and free count. */
  datatype BurstState = BurstState(ring: seq<Mbuf>, out: set<Mbuf>, avail: nat)

  /** One buffer through the gate. Forwarded, it is offered to the transmit queue,
      which takes it while it has room; a buffer the queue refuses is neither
      queued nor freed, since the returned count is ignored. Dropped, it is freed. */
  function Handle(st: BurstState, m: Mbuf, forward: bool, capacity: nat): BurstState
  {
    if !forward then BurstState(st.ring, st.out - {m}, st.avail + 1)
    else if |st.ring| < capacity then BurstState(st.ring + [m], st.out, st.avail)
    else st
  }

  /** The buffers of a burst through the gate one after the other, in index order;
      gate[i] is the decision for burst[i]. */
  function HandleAll(st: BurstState, burst: seq<Mbuf>, gate: seq<bool>, capacity: nat): BurstState
    requires |burst| <= |gate|
    decreases |burst|
  {
    if |burst| == 0 then st
    else
      var n := |burst| - 1;
      Handle(HandleAll(st, burst[..n], gate, capacity), burst[n], gate[n], capacity)
  }

  /** Handling a burst of distinct outstanding buffers in order appends to the ring
      the forwarded buffers, in burst order, as many as fit, and returns exactly
      the dropped ones to the pool. */
  lemma {:induction false} HandleAllClosed(st: BurstState, burst: seq<Mbuf>, gate: seq<bool>, capacity: nat)
    requires |burst| <= |gate| && |st.ring| <= capacity
    requires forall j :: 0 <= j < |burst| ==> burst[j] in st.out
    requires forall j, k :: 0 <= j < k < |burst| ==> burst[j] != burst[k]
    ensures HandleAll(st, burst, gate, capacity)
         == BurstState(st.ring + Take(Selected(burst, gate, true), capacity - |st.ring|),
                       st.out - Elements(Selected(burst, gate, false)),
                       st.avail + |Selected(burst, gate, false)|)
    decreases |burst|
  {
    if |burst| == 0 {
      assert Selected(burst, gate, true) == [] && Selected(burst, gate, false) == [];
    } else {
      var n := |burst| - 1;
      var prefix := burst[..n];
      assert forall j :: 0 <= j < |prefix| ==> prefix[j] == burst[j];
      HandleAllClosed(st, prefix, gate, capacity);
      var mid := HandleAll(st, prefix, gate, capacity);
      var last := HandleAll(st, burst, gate, capacity);
      assert last == Handle(mid, burst[n], gate[n], capacity);
      assert burst[..n + 1] == burst;
      FreedStep(st.out, st.avail, burst, gate, n, mid.out, mid.avail);
      assert last.out == st.out - Elements(Selected(burst, gate, false));
      assert last.avail == st.avail + |Selected(burst, gate, false)|;
      SentStep(st.ring, burst, gate, n, capacity, mid.ring, last.ring);
      assert last.ring == st.ring + Take(Selected(burst, gate, true), capacity - |st.ring|);
    }
  }

  /** Handling burst[i] after burst[..i] is handling burst[..i + 1]. */
  lemma HandleAllStep(st: BurstState, burst: seq<Mbuf>, gate: seq<bool>, capacity: nat, i: nat,
                      before: BurstState, after: BurstState)
    requires i < |burst| <= |gate|
    requires before == HandleAll(st, burst[..i], gate, capacity)
    requires after == Handle(before, burst[i], gate[i], capacity)
    ensures after == HandleAll(st, burst[..i + 1], gate, capacity)
  {
    assert burst[..i + 1][..i] == burst[..i];
  }

  /** The buffers of a burst are distinct and all outstanding. */
  ghost predicate Outstanding(burst: seq<Mbuf>, out: set<Mbuf>)
  {
    && (forall j :: 0 <= j < |burst| ==> burst[j] in out)
    && (forall j, k :: 0 <= j < k < |burst| ==> burst[j] != burst[k])
  }

  /** A buffer the gate drops is still outstanding when its turn comes. */
  lemma DroppedStillOut(st: BurstState, burst: seq<Mbuf>, gate: seq<bool>, capacity: nat, i: nat)
    requires i < |burst| <= |gate| && |st.ring| <= capacity
    requires Outstanding(burst, st.out)
    ensures !gate[i] ==> burst[i] in HandleAll(st, burst[..i], gate, capacity).out
  {
    var prefix := burst[..i];
    assert forall j :: 0 <= j < |prefix| ==> prefix[j] == burst[j];
    HandleAllClosed(st, prefix, gate, capacity);
    FreshInBurst(burst, gate, i, st.out);
  }

  /** The body of lcore_main's inner loop for one buffer, once the predictor has
      written its reply: atoi of what fgets reads back, then rte_eth_tx_burst of
      the buffer alone to port 0, queue 0 when that exceeds 70 and
      rte_pktmbuf_free otherwise. */
  method ForwardOrFree(txq: TxQueue, pool: Pool, m: Mbuf, reply: string)
    requires txq.Valid() && pool.Valid() && (!Forwards(ScoreOf(reply)) ==> m in pool.Out)
    modifies txq, pool
    ensures txq.Valid() && pool.Valid()
    ensures BurstState(txq.ring, pool.Out, pool.avail)
         == Handle(BurstState(old(txq.ring), old(pool.Out), old(pool.avail)), m, Forwards(ScoreOf(reply)), txq.capacity)
  {
    var result := Fgets(reply, RESULT_SIZE);
    if Atoi(result) > FORWARD_THRESHOLD {
      var _ := txq.TxBurstOne(m);
    } else {
      pool.Free(m);
    }
  }

  /** lcore_main's inner loop over the nb buffers of one burst, bufs[0..nb)
      holding the distinct outstanding buffers `burst`: each one, in index order,
      is forwarded or freed by the gate on the score of its reply. */
  method GateBurst(txq: TxQueue, pool: Pool, bufs: array<Mbuf?>, nb: nat, replies: seq<string>, ghost burst: seq<Mbuf>)
    requires nb == |burst| && nb <= bufs.Length && nb <= |replies|
    requires forall j :: 0 <= j < nb ==> bufs[j] == burst[j]
    requires txq.Valid() && pool.Valid() && Owned(burst, pool)
    modifies txq, pool
    ensures txq.Valid() && pool.Valid()
    ensures BurstState(txq.ring, pool.Out, pool.avail)
         == HandleAll(BurstState(old(txq.ring), old(pool.Out), old(pool.avail)), burst, Gate(replies), txq.capacity)
  {
    ghost var st0 := BurstState(txq.ring, pool.Out, pool.avail);
    ghost var gate := Gate(replies);
    assert Outstanding(burst, st0.out);
    var i := 0;
    while i < nb
      invariant 0 <= i <= nb
      invariant txq.Valid() && pool.Valid()
      invariant BurstState(txq.ring, pool.Out, pool.avail) == HandleAll(st0, burst[..i], gate, txq.capacity)
    {
      var mbuf: Mbuf := bufs[i];
      GateOne(txq, pool, mbuf, replies[i], st0, burst, gate, i);
      i := i + 1;
    }
    assert burst[..nb] == burst;
  }

  /** Buffer i of the burst through ForwardOrFree: the state moves from
      HandleAll over the first i buffers to HandleAll over the first i + 1. */
  method GateOne(txq: TxQueue, pool: Pool, m: Mbuf, reply: string,
                 ghost st0: BurstState, ghost burst: seq<Mbuf>, ghost gate: seq<bool>, ghost i: nat)
    requires i < |burst| <= |gate| && m == burst[i] && gate[i] == Forwards(ScoreOf(reply))
    requires |st0.ring| <= txq.capacity && Outstanding(burst, st0.out)
    requires txq.Valid() && pool.Valid()
    requires BurstState(txq.ring, pool.Out, pool.avail) == HandleAll(st0, burst[..i], gate, txq.capacity)
    modifies txq, pool
    ensures txq.Valid() && pool.Valid()
    ensures BurstState(txq.ring, pool.Out, pool.avail) == HandleAll(st0, burst[..i + 1], gate, txq.capacity)
  {
    DroppedStillOut(st0, burst, gate, txq.capacity, i);
    ghost var before := BurstState(txq.ring, pool.Out, pool.avail);
    ForwardOrFree(txq, pool, m, reply);
    HandleAllStep(st0, burst, gate, txq.capacity, i, before, BurstState(txq.ring, pool.Out, pool.avail));
  }

  /** One pass of lcore_main's loop body: rte_eth_rx_burst of up to BURST_SIZE
      buffers from port 0, queue 0 into bufs, then each received buffer, in
      order, through the gate on the score of its reply (HandleAll). Only
      bufs[0..nbRx) is written and read; an empty burst changes nothing else. */
  method LcoreMainBurst(rxq: RxQueue, txq: TxQueue, pool: Pool, bufs: array<Mbuf?>, replies: seq<string>)
    returns (nbRx: nat)
    requires bufs.Length == BURST_SIZE && |replies| >= BURST_SIZE
    requires rxq.port == PORT && rxq.queue == QUEUE && txq.port == PORT && txq.queue == QUEUE
    requires txq.Valid() && pool.Valid() && Owned(rxq.pending, pool)
    modifies rxq, txq, pool, bufs
    ensures nbRx <= BURST_SIZE && nbRx == if |old(rxq.pending)| < BURST_SIZE then |old(rxq.pending)| else BURST_SIZE
    ensures rxq.pending == old(rxq.pending)[nbRx..]
    ensures forall i :: 0 <= i < nbRx ==> bufs[i] == old(rxq.pending)[i]
    ensures forall i :: nbRx <= i < BURST_SIZE ==> bufs[i] == old(bufs[i])
    ensures txq.Valid() && pool.Valid()
    ensures BurstState(txq.ring, pool.Out, pool.avail)
         == HandleAll(BurstState(old(txq.ring), old(pool.Out), old(pool.avail)),
                      old(rxq.pending)[..nbRx], Gate(replies), txq.capacity)
  {
    ghost var pending := rxq.pending;
    ghost var st0 := BurstState(txq.ring, pool.Out, pool.avail);
    nbRx := rxq.RxBurst(bufs, BURST_SIZE);
    ghost var burst := pending[..nbRx];
    if nbRx == 0 {
      assert burst == [];
      return;
    }
    assert Owned(burst, pool) by {
      assert forall j :: 0 <= j < |burst| ==> burst[j] == pending[j];
    }
    GateBurst(txq, pool, bufs, nbRx, replies, burst);
  }

  /** What a burst leaves behind, for a burst of distinct outstanding buffers:
      the transmit ring gains exactly the buffers whose score exceeds 70, in burst
      order, as many as it has room for; the pool gets back exactly the others;
      every buffer is in one of the two groups and none in both. An empty burst
      changes nothing. */
  lemma BurstOutcome(st: BurstState, burst: seq<Mbuf>, replies: seq<string>, capacity: nat)
    requires |burst| <= |replies| && |st.ring| <= capacity
    requires forall j :: 0 <= j < |burst| ==> burst[j] in st.out
    requires forall j, k :: 0 <= j < k < |burst| ==> burst[j] != burst[k]
    ensures var after := HandleAll(st, burst, Gate(replies), capacity);
      && after.ring == st.ring + Take(Selected(burst, Gate(replies), true), capacity - |st.ring|)
      && after.out == st.out - Elements(Selected(burst, Gate(replies), false))
      && after.avail == st.avail + |Selected(burst, Gate(replies), false)|
    ensures multiset(Selected(burst, Gate(replies), true)) + multiset(Selected(burst, Gate(replies), false))
         == multiset(burst)
    ensures forall i :: 0 <= i < |burst| ==>
              && (burst[i] in Selected(burst, Gate(replies), true) <==> Forwards(ScoreOf(replies[i])))
              && (burst[i] in Selected(burst, Gate(replies), false) <==> !Forwards(ScoreOf(replies[i])))
    ensures |burst| == 0 ==> HandleAll(st, burst, Gate(replies), capacity) == st
  {
    HandleAllClosed(st, burst, Gate(replies), capacity);
    SelectedPartition(burst, Gate(replies));
    forall i | 0 <= i < |burst|
      ensures burst[i] in Selected(burst, Gate(replies), true) <==> Forwards(ScoreOf(replies[i]))
      ensures burst[i] in Selected(burst, Gate(replies), false) <==> !Forwards(ScoreOf(replies[i]))
    {
      SelectedMembership(burst, replies, i);
    }
  }
}

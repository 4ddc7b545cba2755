/** The bounded chat log both servers keep per room: `messages.push(m)`, then one
    `messages.shift()` when the log has grown past 100 entries. */
module History {

  /** The bound on stored messages per room. */
  const MaxMessages: nat := 100

  /** The last `n` elements of `s`, or all of `s` when it is shorter. */
  function Recent<T>(s: seq<T>, n: nat): (r: seq<T>)
    ensures |r| == if |s| < n then |s| else n
    ensures r == s[|s| - |r|..]
  {
    if |s| <= n then s else s[|s| - n..]
  }

  /** Appending one message: a log within the bound stays within it and keeps
      exactly the most recent messages, so on overflow only the oldest is dropped. */
  function Push<T>(log: seq<T>, m: T): (r: seq<T>)
    ensures |log| <= MaxMessages ==> r == Recent(log + [m], MaxMessages)
    ensures |log| <= MaxMessages ==> |r| <= MaxMessages
    ensures |log| < MaxMessages ==> r == log + [m]
    ensures r != [] && r[|r| - 1] == m
  {
    var grown := log + [m];
    if |grown| > MaxMessages then grown[1..] else grown
  }

  /** Appending several messages in order. */
  function PushAll<T>(log: seq<T>, ms: seq<T>): seq<T>
    decreases |ms|
  {
    if ms == [] then log else PushAll(Push(log, ms[0]), ms[1..])
  }

  /** Taking the last `n` twice is taking them once. */
  lemma RecentOfRecent<T>(s: seq<T>, t: seq<T>, n: nat)
    ensures Recent(Recent(s, n) + t, n) == Recent(s + t, n)
  {
    var u := Recent(s, n);
    if |s| > n {
      assert u + t == (s + t)[|s| - n..];
    }
  }

  /** One bounded append followed by more messages keeps the same recent window
      as the plain append. */
  lemma PushThenRecent<T>(log: seq<T>, m: T, rest: seq<T>)
    requires |log| <= MaxMessages
    ensures Recent(Push(log, m) + rest, MaxMessages) == Recent(log + [m] + rest, MaxMessages)
  {
    RecentOfRecent(log + [m], rest, MaxMessages);
  }

  /** However many messages arrive, the log holds exactly the most recent 100 of
      everything appended, in their original order. */
  lemma {:induction false} PushAllKeepsRecent<T>(log: seq<T>, ms: seq<T>)
    requires |log| <= MaxMessages
    ensures PushAll(log, ms) == Recent(log + ms, MaxMessages)
    decreases |ms|
  {
    if ms == [] {
      assert log + ms == log;
    } else {
      var m, rest := ms[0], ms[1..];
      var next := Push(log, m);
      assert PushAll(log, ms) == PushAll(next, rest);
      assert PushAll(next, rest) == Recent(next + rest, MaxMessages) by {
        PushAllKeepsRecent(next, rest);
      }
      assert Recent(next + rest, MaxMessages) == Recent(log + ms, MaxMessages) by {
        PushThenRecent(log, m, rest);
        assert log + [m] + rest == log + ms;
      }
    }
  }
}

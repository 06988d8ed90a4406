/** The risk-keyword warning detector of the chat tab: a fixed table from
    trigger words to warning lines, a guard against blank input, and a scan
    that raises two alerts for every trigger word found in the message. */
module Guardian {
  import opened Text

  /** One row of the table: a trigger word and the warning lines for it. */
  type Entry = (string, seq<string>)

  /** A dictionary kept as its rows in insertion order. */
  type Table = seq<Entry>

  /** The warning table `경고_메시지`, in the dictionary's insertion order. */
  const WarningTable: Table := [
    ("몰빵", ["야 정신차려!", "몰빵은 라면에 하고 주식은 분산해라."]),
    ("올인", ["또 올인? 제정신이냐.", "한번만 더 올인하면 계좌 장례식이다."]),
    ("빚투", ["빚투는 절대 금지!", "가족들 생각해라 제발."]),
    ("레버리지", ["레버리지는 칼이다. 잘못 쓰면 너 찍힌다."]),
    ("물타기", ["물타기 중독 멈춰!", "지금 물타면 더 깊이 빠진다."]),
    ("단타", ["단타 중독이다 이건.", "단타하려면 멘탈 10개 필요하다."]),
    ("추천", ["남 말 믿지마라.", "추천 따라가다 패가망신한다."])
  ]

  /** The prompt shown for a blank message. */
  const BlankPrompt: string := "메시지를 입력해주세요."

  /** The generic alert raised once for every trigger word found. */
  const PatternAlert: string := "⚠️ 위험한 투자 패턴 감지!"

  /** What the chat tab does, in order: show a warning box, a pulsing siren
      banner carrying one warning line, or an error box; send the raw message
      to the language model; show an info box with the model's reply. */
  datatype Notice =
    | Warning(text: string)
    | Siren(line: string)
    | Error(text: string)
    | Ask(prompt: string)
    | Info(text: string)

  /** The trigger words of a table, in order. */
  function Keys(table: Table): (ks: seq<string>)
    ensures |ks| == |table|
    ensures forall i :: 0 <= i < |table| ==> ks[i] == table[i].0
  {
    seq(|table|, i requires 0 <= i < |table| => table[i].0)
  }

  /** No trigger word appears twice (as in a dictionary). */
  ghost predicate DistinctKeys(table: Table)
  {
    forall i, j :: 0 <= i < j < |table| ==> table[i].0 != table[j].0
  }

  /** A table the scan can use: a dictionary whose every list offers at least
      one line to choose from. */
  ghost predicate WellFormed(table: Table)
  {
    DistinctKeys(table) && forall i :: 0 <= i < |table| ==> table[i].1 != []
  }

  /** The warning table has seven distinct trigger words, and no list of lines
      is empty, so a random choice from any of them is always defined. */
  lemma WarningTableWellFormed()
    ensures |WarningTable| == 7 && WellFormed(WarningTable)
  {
  }

  /** Dictionary lookup `table[k]`: the lines of the row whose key is `k`. */
  function Lookup(table: Table, k: string): (lines: seq<string>)
    requires k in Keys(table)
    ensures lines == table[IndexOf(table, k)].1
  {
    if table[0].0 == k then table[0].1 else Lookup(table[1..], k)
  }

  /** The position of `k` among the trigger words. */
  function IndexOf(table: Table, k: string): (i: nat)
    requires k in Keys(table)
    ensures i < |table| && table[i].0 == k
    ensures forall j :: 0 <= j < i ==> table[j].0 != k
  {
    if table[0].0 == k then 0 else 1 + IndexOf(table[1..], k)
  }

  /** Looking up the key of row `j` gives that row's lines. */
  lemma {:induction false} LookupRow(table: Table, j: nat)
    requires DistinctKeys(table) && j < |table|
    ensures table[j].0 in Keys(table) && Lookup(table, table[j].0) == table[j].1
  {
    assert Keys(table)[j] == table[j].0;
    if j > 0 {
      assert table[0].0 != table[j].0;
      LookupRow(table[1..], j - 1);
    }
  }

  /** The trigger words found in `text`, in table order: the keys for which
      `k in user_input` holds. */
  function MatchedKeys(table: Table, text: string): (found: seq<string>)
    ensures |found| <= |table|
  {
    if table == [] then []
    else
      var n := |table| - 1;
      var earlier := MatchedKeys(table[..n], text);
      if Contains(text, table[n].0) then earlier + [table[n].0] else earlier
  }

  /** The matched keys are exactly the trigger words for which `k in text`
      holds. */
  lemma {:induction false} MatchedKeysMembers(table: Table, text: string)
    ensures forall k :: k in MatchedKeys(table, text) <==> k in Keys(table) && Contains(text, k)
  {
    if table != [] {
      var n := |table| - 1;
      MatchedKeysMembers(table[..n], text);
      assert Keys(table) == Keys(table[..n]) + [table[n].0];
    }
  }

  /** A key fires exactly when it occurs as a contiguous substring of the
      message, with no word-boundary check and no case folding. */
  lemma FiresIffSubstring(table: Table, text: string, k: string)
    ensures k in MatchedKeys(table, text) <==> k in Keys(table) && IsSubstring(k, text)
  {
    MatchedKeysMembers(table, text);
    ContainsIffSubstring(text, k);
  }

  /** The position of a key does not change when rows are appended. */
  lemma {:induction false} IndexOfPrefix(table: Table, n: nat, k: string)
    requires n <= |table| && k in Keys(table[..n])
    ensures k in Keys(table) && IndexOf(table, k) == IndexOf(table[..n], k)
  {
    var j :| 0 <= j < n && Keys(table[..n])[j] == k;
    assert Keys(table)[j] == k;
    if table[0].0 != k {
      assert table[1..][..n - 1] == table[..n][1..];
      assert Keys(table[1..][..n - 1])[j - 1] == k;
      IndexOfPrefix(table[1..], n - 1, k);
    }
  }

  /** Every key of `keys` is a trigger word of `table`, and the keys appear in
      the order of their rows. */
  ghost predicate InTableOrder(table: Table, keys: seq<string>)
  {
    (forall k :: k in keys ==> k in Keys(table)) &&
    forall i, j :: 0 <= i < j < |keys| ==> IndexOf(table, keys[i]) < IndexOf(table, keys[j])
  }

  /** Keys in table order are pairwise distinct. */
  lemma InTableOrderDistinct(table: Table, keys: seq<string>)
    requires InTableOrder(table, keys)
    ensures forall i, j :: 0 <= i < j < |keys| ==> keys[i] != keys[j]
  {
    forall i, j | 0 <= i < j < |keys|
      ensures keys[i] != keys[j]
    {
      assert IndexOf(table, keys[i]) < IndexOf(table, keys[j]);
    }
  }

  /** The last row's key sits at the last position. */
  lemma IndexOfLast(table: Table)
    requires DistinctKeys(table) && table != []
    ensures table[|table| - 1].0 in Keys(table)
    ensures IndexOf(table, table[|table| - 1].0) == |table| - 1
  {
    assert Keys(table)[|table| - 1] == table[|table| - 1].0;
  }

  /** Keys in order within the first `n` rows stay in order within the whole
      table, and all come before row `n`. */
  lemma InTableOrderPrefix(table: Table, n: nat, keys: seq<string>)
    requires n <= |table| && InTableOrder(table[..n], keys)
    ensures InTableOrder(table, keys)
    ensures forall k :: k in keys ==> IndexOf(table, k) < n
  {
    forall k | k in keys
      ensures k in Keys(table) && IndexOf(table, k) == IndexOf(table[..n], k) < n
    {
      IndexOfPrefix(table, n, k);
    }
  }

  /** Appending a key that comes after all of `keys` keeps the order. */
  lemma InTableOrderAppend(table: Table, keys: seq<string>, x: string)
    requires InTableOrder(table, keys) && x in Keys(table)
    requires forall k :: k in keys ==> IndexOf(table, k) < IndexOf(table, x)
    ensures InTableOrder(table, keys + [x])
  {
    var ext := keys + [x];
    forall i, j | 0 <= i < j < |ext|
      ensures IndexOf(table, ext[i]) < IndexOf(table, ext[j])
    {
      assert ext[i] == keys[i];
      if j < |keys| {
        assert ext[j] == keys[j];
      }
    }
  }

  /** One more row extends the match list by that row's key when it fires. */
  lemma MatchedKeysStep(table: Table, text: string, j: nat)
    requires j < |table|
    ensures MatchedKeys(table[..j + 1], text) ==
      MatchedKeys(table[..j], text) + (if Contains(text, table[j].0) then [table[j].0] else [])
  {
    assert table[..j + 1][..j] == table[..j];
  }

  /** Matched keys are reported in the table's order, each at most once. */
  lemma {:induction false} MatchedKeysInTableOrder(table: Table, text: string)
    requires DistinctKeys(table)
    ensures InTableOrder(table, MatchedKeys(table, text))
    ensures var found := MatchedKeys(table, text);
      forall i, j :: 0 <= i < j < |found| ==> found[i] != found[j]
  {
    if table != [] {
      var n := |table| - 1;
      var earlier := MatchedKeys(table[..n], text);
      assert DistinctKeys(table[..n]);
      MatchedKeysInTableOrder(table[..n], text);
      InTableOrderPrefix(table, n, earlier);
      MatchedKeysStep(table, text, n);
      assert table[..n + 1] == table;
      if Contains(text, table[n].0) {
        IndexOfLast(table);
        InTableOrderAppend(table, earlier, table[n].0);
      }
    }
    InTableOrderDistinct(table, MatchedKeys(table, text));
  }

  /** Appending or prepending text never removes a matched key. */
  lemma ExtendingKeepsMatches(table: Table, pre: string, text: string, post: string)
    ensures forall k :: k in MatchedKeys(table, text) ==> k in MatchedKeys(table, pre + text + post)
  {
    forall k | k in MatchedKeys(table, text)
      ensures k in MatchedKeys(table, pre + text + post)
    {
      FiresIffSubstring(table, text, k);
      SubstringOfExtension(k, pre, text, post);
      FiresIffSubstring(table, pre + text + post, k);
    }
  }

  /** `alerts` is what the scan shows for the matched `keys`: for each key in
      turn, a siren banner with one of that key's lines, then the generic
      pattern alert. */
  ghost predicate IsAlertSequence(table: Table, keys: seq<string>, alerts: seq<Notice>)
  {
    |alerts| == 2 * |keys| &&
    forall i :: 0 <= i < |keys| ==>
      keys[i] in Keys(table) &&
      alerts[2 * i].Siren? && alerts[2 * i].line in Lookup(table, keys[i]) &&
      alerts[2 * i + 1] == Error(PatternAlert)
  }

  /** The number of generic pattern alerts among `alerts`. */
  function PatternAlertCount(alerts: seq<Notice>): nat
  {
    if alerts == [] then 0
    else (if alerts[0] == Error(PatternAlert) then 1 else 0) + PatternAlertCount(alerts[1..])
  }

  /** The number of siren banners among `alerts`. */
  function SirenCount(alerts: seq<Notice>): nat
  {
    if alerts == [] then 0
    else (if alerts[0].Siren? then 1 else 0) + SirenCount(alerts[1..])
  }

  /** The scan raises exactly one siren banner and one generic pattern alert
      per matched key. */
  lemma {:induction false} AlertCounts(table: Table, keys: seq<string>, alerts: seq<Notice>)
    requires IsAlertSequence(table, keys, alerts)
    ensures PatternAlertCount(alerts) == |keys| && SirenCount(alerts) == |keys|
  {
    if keys != [] {
      assert IsAlertSequence(table, keys[1..], alerts[2..]) by {
        forall i | 0 <= i < |keys[1..]|
          ensures keys[1..][i] in Keys(table)
          ensures alerts[2..][2 * i].Siren? && alerts[2..][2 * i].line in Lookup(table, keys[1..][i])
          ensures alerts[2..][2 * i + 1] == Error(PatternAlert)
        {
          assert keys[1..][i] == keys[i + 1];
          assert alerts[2..][2 * i] == alerts[2 * (i + 1)];
          assert alerts[2..][2 * i + 1] == alerts[2 * (i + 1) + 1];
        }
      }
      AlertCounts(table, keys[1..], alerts[2..]);
      assert alerts[1..][1..] == alerts[2..];
      assert alerts[2 * 0].Siren? && alerts[2 * 0 + 1] == Error(PatternAlert);
    }
  }

  /** A message containing none of the trigger words matches nothing, so
      the scan shows no alert at all. */
  lemma NoTriggerNoAlerts(table: Table, text: string, alerts: seq<Notice>)
    requires forall k :: k in Keys(table) ==> !IsSubstring(k, text)
    requires IsAlertSequence(table, MatchedKeys(table, text), alerts)
    ensures MatchedKeys(table, text) == [] && alerts == []
  {
    var found := MatchedKeys(table, text);
    if found != [] {
      FiresIffSubstring(table, text, found[0]);
      assert false;
    }
  }

  /** One more fired key adds its siren banner and the pattern alert. */
  lemma AlertSequenceAppend(table: Table, keys: seq<string>, alerts: seq<Notice>, k: string, line: string)
    requires IsAlertSequence(table, keys, alerts)
    requires k in Keys(table) && line in Lookup(table, k)
    ensures IsAlertSequence(table, keys + [k], alerts + [Siren(line), Error(PatternAlert)])
  {
    var keys', alerts' := keys + [k], alerts + [Siren(line), Error(PatternAlert)];
    forall i | 0 <= i < |keys'|
      ensures keys'[i] in Keys(table)
      ensures alerts'[2 * i].Siren? && alerts'[2 * i].line in Lookup(table, keys'[i])
      ensures alerts'[2 * i + 1] == Error(PatternAlert)
    {
      if i < |keys| {
        assert keys'[i] == keys[i];
        assert alerts'[2 * i] == alerts[2 * i] && alerts'[2 * i + 1] == alerts[2 * i + 1];
      }
    }
  }

  /** The scan loop: visits the trigger words in table order and, for each one
      that occurs in `text`, shows a siren banner with a line chosen from that
      word's list (the choice is left open, as `random.choice` leaves it) and
      then the generic pattern alert. */
  method ScanAlerts(table: Table, text: string) returns (alerts: seq<Notice>)
    requires WellFormed(table)
    ensures IsAlertSequence(table, MatchedKeys(table, text), alerts)
  {
    alerts := [];
    var j := 0;
    while j < |table|
      invariant 0 <= j <= |table|
      invariant IsAlertSequence(table, MatchedKeys(table[..j], text), alerts)
    {
      var k := table[j].0;
      MatchedKeysStep(table, text, j);
      if Contains(text, k) {
        LookupRow(table, j);
        assert table[j].1[0] in Lookup(table, k);
        var line :| line in Lookup(table, k);
        AlertSequenceAppend(table, MatchedKeys(table[..j], text), alerts, k, line);
        alerts := alerts + [Siren(line), Error(PatternAlert)];
      }
      j := j + 1;
    }
    assert table[..|table|] == table;
  }

  /** Pressing send: a blank message (empty or whitespace only) gets the
      prompt and nothing else: no scan, and no request to the model. Any other
      message gets the scan's alerts, then the request carrying the message as
      typed, then the model's `reply`, so the scan never keeps the reply from
      being shown. */
  method Send(input: string, reply: string) returns (shown: seq<Notice>)
    ensures AllWhitespace(input) ==> shown == [Warning(BlankPrompt)]
    ensures !AllWhitespace(input) ==>
      |shown| >= 2 && shown[|shown| - 2] == Ask(input) && shown[|shown| - 1] == Info(reply) &&
      IsAlertSequence(WarningTable, MatchedKeys(WarningTable, input), shown[..|shown| - 2])
  {
    StripEmptyIffBlank(input);
    if Strip(input) == "" {
      shown := [Warning(BlankPrompt)];
    } else {
      WarningTableWellFormed();
      var alerts := ScanAlerts(WarningTable, input);
      shown := alerts + [Ask(input), Info(reply)];
      assert shown[..|shown| - 2] == alerts;
    }
  }

  /** Only a non-blank message is ever sent to the model, and then exactly
      once. */
  lemma {:induction false} AskCount(table: Table, keys: seq<string>, alerts: seq<Notice>, input: string, reply: string)
    requires IsAlertSequence(table, keys, alerts)
    ensures forall n :: n in alerts ==> !n.Ask?
    ensures forall n :: n in alerts + [Ask(input), Info(reply)] && n.Ask? ==> n == Ask(input)
  {
    forall n | n in alerts
      ensures !n.Ask?
    {
      var x :| 0 <= x < |alerts| && alerts[x] == n;
      var i := x / 2;
      assert alerts[2 * i].Siren? && alerts[2 * i + 1] == Error(PatternAlert);
    }
  }

  /** A trigger word fires wherever it appears, even inside a longer word:
      no word-boundary check is made. */
  lemma EmbeddedKeyFires(table: Table, k: string, pre: string, post: string)
    requires k in Keys(table)
    ensures k in MatchedKeys(table, pre + k + post)
  {
    var text := pre + k + post;
    assert text[|pre|..|pre| + |k|] == k;
    assert OccursAt(k, text, |pre|);
    FiresIffSubstring(table, text, k);
  }

  /** None of the other six trigger words occurs in the all-in message. */
  lemma AllInOthersAbsent(text: string)
    requires text == "지금 몰빵해서 다 사야겠어"
    ensures forall i :: 1 <= i < |WarningTable| ==> !Contains(text, WarningTable[i].0)
  {
    assert forall i :: 0 <= i < |text| ==>
      text[i] != '올' && text[i] != '빚' && text[i] != '레' && text[i] != '물' && text[i] != '단' && text[i] != '추';
    AbsentFirstChar(text, "올인");
    AbsentFirstChar(text, "빚투");
    AbsentFirstChar(text, "레버리지");
    AbsentFirstChar(text, "물타기");
    AbsentFirstChar(text, "단타");
    AbsentFirstChar(text, "추천");
  }

  /** The all-in message "지금 몰빵해서 다 사야겠어" fires the "몰빵" key, although
      the word is glued to the ending "해서", and fires no other key. */
  lemma AllInExample(text: string)
    requires text == "지금 몰빵해서 다 사야겠어"
    ensures forall k :: k in MatchedKeys(WarningTable, text) <==> k == "몰빵"
  {
    assert Keys(WarningTable)[0] == "몰빵";
    assert text == "지금 " + "몰빵" + "해서 다 사야겠어";
    EmbeddedKeyFires(WarningTable, "몰빵", "지금 ", "해서 다 사야겠어");
    AllInOthersAbsent(text);
    MatchedKeysMembers(WarningTable, text);
    forall k | k in MatchedKeys(WarningTable, text)
      ensures k == "몰빵"
    {
      var i :| 0 <= i < |WarningTable| && Keys(WarningTable)[i] == k;
      assert i == 0;
    }
  }
}

/** The rule store of RuleService.h: rules packed one after another in the
    node's EEPROM as [id, condLen, actLen, condition…, action…] and ended
    by an id of 0xff, plus the ten-slot cache of variables that rules
    refer to.

    The EEPROM is a byte array; getByte/setByte address it from BASE_ADDR
    on.  The rules the store holds are a ghost field tied to the bytes by
    Valid().  Evaluating conditions and running actions (float arithmetic
    and message dispatch) are not part of this model. */
module RuleStore {
  import opened Common

  const BASE_ADDR := 64
  const RULE_STORE_SIZE := 511 - BASE_ADDR
  /** The EEPROM byte right after the store that marks it initialised. */
  const MAGIC_ADDR := BASE_ADDR + RULE_STORE_SIZE
  const MAGIC: byte := 0xab
  /** The EEPROM bytes this service can reach: addresses 0 to 511. */
  const EEPROM_SIZE := 512
  const TERMINATOR: byte := 0xff
  const CACHE_SIZE := 10
  /** serviceId of a cache slot that holds no variable. */
  const FREE_SLOT: byte := 0xff

  // ---------------------------------------------------------------------
  // Rules and their packed form

  datatype Rule = Rule(id: byte, condition: seq<byte>, action: seq<byte>)

  /** A rule the store can hold: its lengths fit their length bytes and its
      id is not the terminator. */
  predicate RuleOk(r: Rule)
  {
    r.id != TERMINATOR && |r.condition| < 256 && |r.action| < 256
  }

  predicate AllOk(rules: seq<Rule>)
  {
    forall k :: 0 <= k < |rules| ==> RuleOk(rules[k])
  }

  function EncodeRule(r: Rule): (s: seq<byte>)
    requires |r.condition| < 256 && |r.action| < 256
    ensures |s| == 3 + |r.condition| + |r.action|
  {
    [r.id, |r.condition|, |r.action|] + r.condition + r.action
  }

  function EncodeRules(rules: seq<Rule>): seq<byte>
    requires AllOk(rules)
  {
    if rules == [] then [] else EncodeRule(rules[0]) + EncodeRules(rules[1..])
  }

  lemma {:induction false} EncodeRulesAppend(a: seq<Rule>, b: seq<Rule>)
    requires AllOk(a)
    requires AllOk(b)
    ensures EncodeRules(a + b) == EncodeRules(a) + EncodeRules(b)
  {
    if a == [] {
      assert a + b == b;
    } else {
      assert (a + b)[1..] == a[1..] + b;
      EncodeRulesAppend(a[1..], b);
      AppendAssoc(EncodeRule(a[0]), EncodeRules(a[1..]), EncodeRules(b));
    }
  }

  /** The i-th rule sits right after the packed rules before it. */
  lemma RuleAt(rules: seq<Rule>, i: nat)
    requires AllOk(rules)
    requires i < |rules|
    ensures EncodeRules(rules) == EncodeRules(rules[..i]) + (EncodeRule(rules[i]) + EncodeRules(rules[i + 1..]))
  {
    var pre, rest := rules[..i], rules[i + 1..];
    AllOkParts(rules, i);
    EncodeCons(rules[i], rest);
    SplitAt(rules, i);
    EncodeRulesAppend(pre, [rules[i]] + rest);
  }

  /** Extending a prefix of s by its next element. */
  lemma SnocSlice<T>(pre: seq<T>, s: seq<T>, i: nat)
    requires i < |s|
    ensures pre + s[..i] + [s[i]] == pre + s[..i + 1]
  {
    assert s[..i + 1] == s[..i] + [s[i]];
  }

  /** A sequence is its prefix, one element and its suffix. */
  lemma SplitAt<T>(s: seq<T>, i: nat)
    requires i < |s|
    ensures s == s[..i] + ([s[i]] + s[i + 1..])
  {
    assert s[i..] == [s[i]] + s[i + 1..];
    assert s == s[..i] + s[i..];
  }

  lemma AllOkParts(rules: seq<Rule>, i: nat)
    requires AllOk(rules) && i < |rules|
    ensures AllOk(rules[..i]) && RuleOk(rules[i]) && AllOk(rules[i + 1..])
  {
  }

  lemma EncodeCons(r: Rule, rest: seq<Rule>)
    requires RuleOk(r) && AllOk(rest)
    ensures AllOk([r] + rest)
    ensures EncodeRules([r] + rest) == EncodeRule(r) + EncodeRules(rest)
  {
    assert ([r] + rest)[1..] == rest;
  }

  /** One more rule in the prefix adds its packed bytes. */
  lemma PrefixStep(rules: seq<Rule>, i: nat)
    requires AllOk(rules)
    requires i < |rules|
    ensures EncodeRules(rules[..i + 1]) == EncodeRules(rules[..i]) + EncodeRule(rules[i])
  {
    assert rules[..i + 1] == rules[..i] + [rules[i]];
    EncodeRulesAppend(rules[..i], [rules[i]]);
    EncodeCons(rules[i], []);
    assert [rules[i]] + [] == [rules[i]];
  }

  /** Where findRule stops: the index of the first rule with this id, the
      number of rules when looking for the terminator, -1 otherwise. */
  function RuleIndex(rules: seq<Rule>, id: byte): (i: int)
    ensures i == -1 || 0 <= i <= |rules|
    ensures 0 <= i < |rules| ==> rules[i].id == id
    ensures forall j :: 0 <= j < |rules| && (j < i || i < 0) ==> rules[j].id != id
    ensures i == |rules| ==> id == TERMINATOR
    ensures i == -1 ==> id != TERMINATOR
  {
    if rules == [] then (if id == TERMINATOR then 0 else -1)
    else if rules[0].id == id then 0
    else
      var k := RuleIndex(rules[1..], id);
      if k < 0 then -1 else k + 1
  }

  /** findRule's result: the offset of that rule (or of the terminator),
      -1 when the id is absent. */
  function RuleOffset(rules: seq<Rule>, id: byte): int
    requires AllOk(rules)
  {
    var i := RuleIndex(rules, id);
    if i < 0 then -1 else |EncodeRules(rules[..i])|
  }

  /** EEPROM contents `e` hold the packed `rules`, a terminator after them,
      and the magic byte after the store. */
  ghost predicate HoldsStore(e: seq<byte>, rules: seq<Rule>)
  {
    && |e| == EEPROM_SIZE
    && (AllOk(rules))
    && |EncodeRules(rules)| < RULE_STORE_SIZE
    && e[BASE_ADDR..BASE_ADDR + |EncodeRules(rules)|] == EncodeRules(rules)
    && e[BASE_ADDR + |EncodeRules(rules)|] == TERMINATOR
    && e[MAGIC_ADDR] == MAGIC
  }

  /** The three header bytes of the i-th rule. */
  lemma HeaderBytes(e: seq<byte>, rules: seq<Rule>, i: nat)
    requires HoldsStore(e, rules) && i < |rules|
    ensures var o := BASE_ADDR + |EncodeRules(rules[..i])|;
      o + 2 < BASE_ADDR + |EncodeRules(rules)|
      && e[o] == rules[i].id && e[o + 1] == |rules[i].condition| && e[o + 2] == |rules[i].action|
      && |EncodeRules(rules[..i + 1])| == |EncodeRules(rules[..i])| + 3 + |rules[i].condition| + |rules[i].action|
  {
    EncodedHeader(rules, i);
    var pre, enc := |EncodeRules(rules[..i])|, EncodeRules(rules);
    var held := e[BASE_ADDR..BASE_ADDR + |enc|];
    assert held[pre] == e[BASE_ADDR + pre];
    assert held[pre + 1] == e[BASE_ADDR + pre + 1];
    assert held[pre + 2] == e[BASE_ADDR + pre + 2];
  }

  /** The three header bytes of the i-th rule in the packed rules. */
  lemma EncodedHeader(rules: seq<Rule>, i: nat)
    requires AllOk(rules) && i < |rules|
    ensures var pre, enc := |EncodeRules(rules[..i])|, EncodeRules(rules);
      && pre + 2 < |enc|
      && enc[pre] == rules[i].id && enc[pre + 1] == |rules[i].condition| && enc[pre + 2] == |rules[i].action|
      && |EncodeRules(rules[..i + 1])| == pre + 3 + |rules[i].condition| + |rules[i].action|
  {
    RuleAt(rules, i);
    PrefixStep(rules, i);
    var r := EncodeRule(rules[i]);
    assert r[0] == rules[i].id && r[1] == |rules[i].condition| && r[2] == |rules[i].action|;
  }

  /** The outcomes onSet and createRule report. */
  datatype Reply =
    | ErrCount    // err(message, COUNT): no rule id, or the id is wrong for the request
    | ErrMessage  // err(message): the request is neither a delete nor a complete rule
    | ErrStore    // err(): the store has no room for the rule

  /** The rules left after onSet, as its branches decide: a missing id
      changes nothing; a request with neither condition nor action deletes
      the rule and every later one; one with both appends a rule whose id
      is absent and that fits; anything else changes nothing. */
  function RulesAfterSet(rules: seq<Rule>, ruleId: Option<int>, condition: Option<seq<byte>>,
                         action: Option<seq<byte>>): seq<Rule>
    requires AllOk(rules)
    requires condition.Some? ==> |condition.value| < 256
    requires action.Some? ==> |action.value| < 256
  {
    if ruleId.None? then rules
    else
      var id := ruleId.value % 256;
      var i := RuleIndex(rules, id);
      if condition.None? && action.None? then (if i < 0 then rules else rules[..i])
      else if condition.None? || action.None? || i >= 0 then rules
      else if Fits(rules, condition.value, action.value) then rules + [Rule(id, condition.value, action.value)]
      else rules
  }

  /** createRule's capacity check: header, condition, action and the new
      terminator must end inside the store. */
  predicate Fits(rules: seq<Rule>, condition: seq<byte>, action: seq<byte>)
    requires AllOk(rules)
  {
    |EncodeRules(rules)| + 4 + |condition| + |action| <= RULE_STORE_SIZE
  }

  function RepliesAfterSet(rules: seq<Rule>, ruleId: Option<int>, condition: Option<seq<byte>>,
                           action: Option<seq<byte>>): seq<Reply>
    requires AllOk(rules)
  {
    if ruleId.None? then [ErrCount]
    else
      var i := RuleIndex(rules, ruleId.value % 256);
      var missing := if i < 0 then [ErrCount] else [];
      if condition.None? && action.None? then missing
      else if condition.None? || action.None? then missing + [ErrMessage]
      else if i >= 0 then [ErrCount]
      else if Fits(rules, condition.value, action.value) then []
      else [ErrStore]
  }

  predicate UniqueIds(rules: seq<Rule>)
  {
    forall j, k :: 0 <= j < k < |rules| ==> rules[j].id != rules[k].id
  }

  /** onSet keeps every rule the store can hold well-formed and never
      lets two rules share an id. */
  lemma SetKeepsStoreSound(rules: seq<Rule>, ruleId: Option<int>, condition: Option<seq<byte>>,
                           action: Option<seq<byte>>)
    requires AllOk(rules)
    requires condition.Some? ==> |condition.value| < 256
    requires action.Some? ==> |action.value| < 256
    ensures var after := RulesAfterSet(rules, ruleId, condition, action);
      AllOk(after)
      && (UniqueIds(rules) ==> UniqueIds(after))
      && (after == rules || (|after| < |rules| && after == rules[..|after|]) || after == rules + [after[|rules|]])
  {
    var after := RulesAfterSet(rules, ruleId, condition, action);
    if ruleId.Some? {
      var i := RuleIndex(rules, ruleId.value % 256);
      if condition.None? && action.None? && i >= 0 {
        assert after == rules[..i];
      }
    }
  }

  /** A request carrying both a condition and an action never creates a
      second rule with an id already stored. */
  lemma SetRefusesDuplicate(rules: seq<Rule>, ruleId: int, condition: seq<byte>, action: seq<byte>, j: nat)
    requires AllOk(rules)
    requires |condition| < 256 && |action| < 256
    requires j < |rules| && rules[j].id == ruleId % 256
    ensures RulesAfterSet(rules, Some(ruleId), Some(condition), Some(action)) == rules
    ensures RepliesAfterSet(rules, Some(ruleId), Some(condition), Some(action)) == [ErrCount]
  {
  }

  /** One slot of the variable cache; the cached float value is not
      modelled. */
  datatype CachedValue = CachedValue(dataType: byte, serviceId: byte, num: byte)

  predicate Holds(v: CachedValue, servId: byte, dataType: byte, num: byte)
  {
    v.serviceId == servId && v.dataType == dataType && v.num == num
  }

  /** The first slot holding the variable, as findVariable scans. */
  function FindSlot(cache: seq<CachedValue>, servId: byte, dataType: byte, num: byte): (r: Option<nat>)
    ensures r.Some? ==> r.value < |cache| && Holds(cache[r.value], servId, dataType, num)
    ensures forall j :: 0 <= j < |cache| && (r.None? || j < r.value) ==> !Holds(cache[j], servId, dataType, num)
  {
    if cache == [] then None
    else if Holds(cache[0], servId, dataType, num) then Some(0)
    else
      var r := FindSlot(cache[1..], servId, dataType, num);
      if r.None? then None else Some(r.value + 1)
  }

  /** The first free slot, as cacheVariable scans. */
  function FreeSlot(cache: seq<CachedValue>): (r: Option<nat>)
    ensures r.Some? ==> r.value < |cache| && cache[r.value].serviceId == FREE_SLOT
    ensures forall j :: 0 <= j < |cache| && (r.None? || j < r.value) ==> cache[j].serviceId != FREE_SLOT
  {
    if cache == [] then None
    else if cache[0].serviceId == FREE_SLOT then Some(0)
    else
      var r := FreeSlot(cache[1..]);
      if r.None? then None else Some(r.value + 1)
  }

  /** A variable cached in a slot because it was not found is found there
      afterwards. */
  lemma CacheThenFind(cache: seq<CachedValue>, servId: byte, dataType: byte, num: byte)
    requires FindSlot(cache, servId, dataType, num).None?
    requires FreeSlot(cache).Some?
    ensures var i := FreeSlot(cache).value;
      FindSlot(cache[i := CachedValue(dataType, servId, num)], servId, dataType, num) == Some(i)
  {
    var i := FreeSlot(cache).value;
    var after := cache[i := CachedValue(dataType, servId, num)];
    var r := FindSlot(after, servId, dataType, num);
    assert Holds(after[i], servId, dataType, num);
    assert r.Some? && r.value <= i;
    assert after[r.value] == cache[r.value] || r.value == i;
  }

  class RuleService {
    /** The node's EEPROM, which outlives the service. */
    const eeprom: array<byte>
    const valueCache: array<CachedValue>
    /** The rules the store currently holds. */
    ghost var rules: seq<Rule>

    ghost predicate Valid()
      reads this, eeprom
    {
      valueCache.Length == CACHE_SIZE && HoldsStore(eeprom[..], rules)
    }

    /** The constructor: validateStore, then every cache slot freed.  An
        EEPROM already carrying the magic byte is taken to hold a store
        this code wrote (`persisted`). */
    constructor(eeprom: array<byte>, ghost persisted: seq<Rule>)
      requires eeprom.Length == EEPROM_SIZE
      requires eeprom[MAGIC_ADDR] == MAGIC ==> HoldsStore(eeprom[..], persisted)
      modifies eeprom
      ensures Valid() && fresh(valueCache)
      ensures rules == if old(eeprom[MAGIC_ADDR]) == MAGIC then persisted else []
      ensures forall k :: 0 <= k < CACHE_SIZE ==> valueCache[k].serviceId == FREE_SLOT
    {
      this.eeprom := eeprom;
      valueCache := new CachedValue[CACHE_SIZE](_ => CachedValue(0, FREE_SLOT, 0));
      new;
      var wasValid := ValidateStore();
      rules := if wasValid then persisted else [];
      assert EncodeRules([]) == [];
    }

    /** validateStore: a store whose magic byte is missing is emptied (a
        terminator at offset 0) and marked with the magic byte. */
    method ValidateStore() returns (wasValid: bool)
      requires eeprom.Length == EEPROM_SIZE
      modifies eeprom
      ensures wasValid == (old(eeprom[MAGIC_ADDR]) == MAGIC)
      ensures wasValid ==> eeprom[..] == old(eeprom[..])
      ensures !wasValid ==> eeprom[..] == old(eeprom[..])[BASE_ADDR := TERMINATOR][MAGIC_ADDR := MAGIC]
      ensures eeprom[MAGIC_ADDR] == MAGIC && (!wasValid ==> HoldsStore(eeprom[..], []))
    {
      if GetByte(RULE_STORE_SIZE) == MAGIC {
        return true;
      }
      SetByte(0, TERMINATOR);
      SetByte(RULE_STORE_SIZE, MAGIC);
      wasValid := false;
      assert EncodeRules([]) == [];
    }

    /** getByte. */
    function GetByte(addr: int): (b: byte)
      requires 0 <= BASE_ADDR + addr < eeprom.Length
      reads eeprom
      ensures b == eeprom[BASE_ADDR + addr]
    {
      eeprom[BASE_ADDR + addr]
    }

    /** setByte: one EEPROM write; nothing checks that the address lies
        inside the store. */
    method SetByte(addr: int, val: byte)
      requires 0 <= BASE_ADDR + addr < eeprom.Length
      modifies eeprom
      ensures eeprom[..] == old(eeprom[..])[BASE_ADDR + addr := val]
    {
      eeprom[BASE_ADDR + addr] := val;
    }

    /** findRule: walk the rules by their lengths until the id or the
        terminator. */
    method FindRule(ruleId: byte) returns (offset: int)
      requires Valid()
      ensures offset == RuleOffset(rules, ruleId)
      ensures ruleId == TERMINATOR ==> offset == |EncodeRules(rules)|
    {
      offset := 0;
      ghost var i := 0;
      while true
        invariant 0 <= i <= |rules|
        invariant offset == |EncodeRules(rules[..i])| <= |EncodeRules(rules)|
        invariant forall j :: 0 <= j < i ==> rules[j].id != ruleId
        decreases |rules| - i
      {
        if i == |rules| {
          assert rules[..i] == rules;
        } else {
          HeaderBytes(eeprom[..], rules, i);
        }
        var id := GetByte(offset);
        if id == ruleId {
          return;
        }
        if id == TERMINATOR {
          break;
        }
        var conditionLen := GetByte(offset + 1);
        var actionLen := GetByte(offset + 2);
        offset := offset + 3 + conditionLen + actionLen;
        i := i + 1;
        EncodePrefixBound(rules, i);
      }
      return -1;
    }

    /** createRule: append the rule at the terminator when it fits, then
        a new terminator; otherwise report that the store is full. */
    method CreateRule(ruleId: byte, condition: seq<byte>, action: seq<byte>) returns (replies: seq<Reply>)
      requires Valid() && |condition| < 256 && |action| < 256
      modifies this, eeprom
      ensures Valid()
      ensures replies == if Fits(old(rules), condition, action) then [] else [ErrStore]
      ensures rules == if Fits(old(rules), condition, action) && ruleId != TERMINATOR
                       then old(rules) + [Rule(ruleId, condition, action)] else old(rules)
      ensures eeprom[..BASE_ADDR] == old(eeprom[..BASE_ADDR])
    {
      var offset := FindRule(TERMINATOR);
      if offset + 4 + |condition| + |action| > RULE_STORE_SIZE {
        return [ErrStore];
      }
      ghost var before := eeprom[..];
      WriteRule(offset, ruleId, condition, action);
      replies := [];
      CreatedStore(before, eeprom[..], rules, Rule(ruleId, condition, action), offset);
      if ruleId != TERMINATOR {
        rules := rules + [Rule(ruleId, condition, action)];
      }
    }

    /** createRule's writes: id, the two lengths, the condition, the action
        and a new terminator, from `offset` on. */
    method WriteRule(offset: int, ruleId: byte, condition: seq<byte>, action: seq<byte>)
      requires |condition| < 256 && |action| < 256
      requires 0 <= BASE_ADDR + offset && BASE_ADDR + offset + 4 + |condition| + |action| <= eeprom.Length
      modifies eeprom
      ensures eeprom[..] == Written(old(eeprom[..]), BASE_ADDR + offset,
                                    EncodeRule(Rule(ruleId, condition, action)) + [TERMINATOR])
    {
      ghost var e0, p0 := eeprom[..], BASE_ADDR + offset;
      assert Written(e0, p0, []) == e0;
      var pos := offset;
      PutByte(pos, ruleId, e0, p0, []);
      pos := pos + 1;
      PutByte(pos, |condition|, e0, p0, [ruleId]);
      pos := pos + 1;
      PutByte(pos, |action|, e0, p0, [ruleId, |condition|]);
      pos := pos + 1;
      ghost var header := [ruleId, |condition|, |action|];
      PutBytes(pos, condition, e0, p0, header);
      pos := pos + |condition|;
      PutBytes(pos, action, e0, p0, header + condition);
      pos := pos + |action|;
      PutByte(pos, TERMINATOR, e0, p0, header + condition + action);
    }

    /** The setByte loops of createRule over the condition or the action. */
    method PutBytes(addr: int, vals: seq<byte>, ghost e0: seq<byte>, ghost p0: nat, ghost done: seq<byte>)
      requires |e0| == eeprom.Length && p0 + |done| + |vals| < |e0| && BASE_ADDR + addr == p0 + |done|
      requires eeprom[..] == Written(e0, p0, done)
      modifies eeprom
      ensures eeprom[..] == Written(e0, p0, done + vals)
    {
      var pos := addr;
      for i := 0 to |vals|
        invariant pos == addr + i
        invariant eeprom[..] == Written(e0, p0, done + vals[..i])
      {
        PutByte(pos, vals[i], e0, p0, done + vals[..i]);
        pos := pos + 1;
        SnocSlice(done, vals, i);
      }
      assert vals[..|vals|] == vals;
    }

    /** One setByte of createRule, extending what was written from p0. */
    method PutByte(addr: int, val: byte, ghost e0: seq<byte>, ghost p0: nat, ghost done: seq<byte>)
      requires |e0| == eeprom.Length && p0 + |done| < |e0| && BASE_ADDR + addr == p0 + |done|
      requires eeprom[..] == Written(e0, p0, done)
      modifies eeprom
      ensures eeprom[..] == Written(e0, p0, done + [val])
    {
      SetByte(addr, val);
      WrittenOne(Written(e0, p0, done), p0 + |done|, val);
      WrittenTwice(e0, p0, done, [val]);
    }

    /** onSet's store handling, as written: with no condition and no
        action the rule found is overwritten by a terminator — and when the
        id is absent, offset -1 makes that write land in the EEPROM byte
        just before the store. */
    method OnSet(ruleId: Option<int>, condition: Option<seq<byte>>, action: Option<seq<byte>>)
      returns (replies: seq<Reply>)
      requires Valid()
      requires condition.Some? ==> |condition.value| < 256
      requires action.Some? ==> |action.value| < 256
      modifies this, eeprom
      ensures Valid()
      ensures rules == RulesAfterSet(old(rules), ruleId, condition, action)
      ensures replies == RepliesAfterSet(old(rules), ruleId, condition, action)
      ensures eeprom[..BASE_ADDR - 1] == old(eeprom[..BASE_ADDR - 1])
      ensures eeprom[BASE_ADDR - 1] ==
        if ruleId.Some? && condition.None? && action.None? && RuleIndex(old(rules), ruleId.value % 256) < 0
        then TERMINATOR else old(eeprom[BASE_ADDR - 1])
    {
      if ruleId.None? {
        return [ErrCount];
      }
      var id := ruleId.value % 256;
      var offset := FindRule(id);
      replies := [];
      if condition.None? && action.None? {
        if offset < 0 {
          replies := [ErrCount];
        }
        ghost var i := RuleIndex(rules, id);
        ghost var before := eeprom[..];
        if i >= 0 {
          EncodePrefixBound(rules, i);
        }
        SetByte(offset, TERMINATOR);
        if i >= 0 {
          TruncatedStore(before, eeprom[..], rules, i);
          rules := rules[..i];
        }
        return;
      }
      if condition.None? || action.None? {
        if offset < 0 {
          replies := [ErrCount];
        }
        replies := replies + [ErrMessage];
        return;
      }
      if offset >= 0 {
        return [ErrCount];
      }
      replies := CreateRule(id, condition.value, action.value);
    }

    /** onSet reporting a missing id without writing anything: no byte
        outside the store changes. */
    method OnSetFixed(ruleId: Option<int>, condition: Option<seq<byte>>, action: Option<seq<byte>>)
      returns (replies: seq<Reply>)
      requires Valid()
      requires condition.Some? ==> |condition.value| < 256
      requires action.Some? ==> |action.value| < 256
      modifies this, eeprom
      ensures Valid()
      ensures rules == RulesAfterSet(old(rules), ruleId, condition, action)
      ensures replies == RepliesAfterSet(old(rules), ruleId, condition, action)
      ensures eeprom[..BASE_ADDR] == old(eeprom[..BASE_ADDR])
    {
      if ruleId.Some? && condition.None? && action.None? {
        var offset := FindRule(ruleId.value % 256);
        if offset < 0 {
          return [ErrCount];
        }
      }
      replies := OnSet(ruleId, condition, action);
    }

    /** findVariable: the first slot holding the variable, if any. */
    method FindVariable(servId: byte, dataType: byte, num: byte) returns (v: Option<nat>)
      requires valueCache.Length == CACHE_SIZE
      ensures v == FindSlot(valueCache[..], servId, dataType, num)
    {
      var i := 0;
      while i < valueCache.Length
        invariant 0 <= i <= valueCache.Length
        invariant FindSlot(valueCache[..], servId, dataType, num)
          == Shifted(i, FindSlot(valueCache[i..], servId, dataType, num))
      {
        if Holds(valueCache[i], servId, dataType, num) {
          return Some(i);
        }
        assert valueCache[i..][1..] == valueCache[i + 1..];
        i := i + 1;
      }
      return None;
    }

    /** cacheVariable: claim the first free slot for the variable, or
        report that the cache is full. */
    method CacheVariable(servId: byte, dataType: byte, num: byte) returns (v: Option<nat>)
      requires valueCache.Length == CACHE_SIZE
      modifies valueCache
      ensures v == FreeSlot(old(valueCache[..]))
      ensures v.None? ==> valueCache[..] == old(valueCache[..])
      ensures v.Some? ==> valueCache[..] == old(valueCache[..])[v.value := CachedValue(dataType, servId, num)]
    {
      ghost var c0 := valueCache[..];
      var i := 0;
      while i < valueCache.Length
        invariant 0 <= i <= valueCache.Length
        invariant valueCache[..] == c0
        invariant FreeSlot(c0) == Shifted(i, FreeSlot(c0[i..]))
      {
        if valueCache[i].serviceId == FREE_SLOT {
          assert c0[i..][0] == c0[i];
          valueCache[i] := CachedValue(dataType, servId, num);
          return Some(i);
        }
        assert c0[i..][1..] == c0[i + 1..];
        i := i + 1;
      }
      assert c0[i..] == [];
      return None;
    }
  }

  /** A slot index found in a suffix starting at i, as an index of the
      whole cache. */
  function Shifted(i: nat, r: Option<nat>): Option<nat>
  {
    if r.None? then None else Some(r.value + i)
  }

  /** The EEPROM contents `e` with `x` written from address `p` on. */
  function Written(e: seq<byte>, p: nat, x: seq<byte>): (w: seq<byte>)
    requires p + |x| <= |e|
    ensures |w| == |e|
  {
    e[..p] + x + e[p + |x|..]
  }

  lemma WrittenOne(e: seq<byte>, p: nat, v: byte)
    requires p < |e|
    ensures e[p := v] == Written(e, p, [v])
  {
  }

  lemma WrittenTwice(e: seq<byte>, p: nat, x: seq<byte>, y: seq<byte>)
    requires p + |x| + |y| <= |e|
    ensures Written(Written(e, p, x), p + |x|, y) == Written(e, p, x + y)
  {
    var lhs, rhs := Written(Written(e, p, x), p + |x|, y), Written(e, p, x + y);
    forall k | 0 <= k < |e|
      ensures lhs[k] == rhs[k]
    {
    }
  }

  lemma EncodePrefixBound(rules: seq<Rule>, i: nat)
    requires AllOk(rules)
    requires i <= |rules|
    ensures |EncodeRules(rules[..i])| <= |EncodeRules(rules)|
  {
    assert rules == rules[..i] + rules[i..];
    EncodeRulesAppend(rules[..i], rules[i..]);
  }

  /** After createRule's writes at the old terminator the store holds the
      new rule, unless its id is the terminator itself. */
  lemma CreatedStore(before: seq<byte>, after: seq<byte>, rules: seq<Rule>, r: Rule, offset: int)
    requires HoldsStore(before, rules) && |r.condition| < 256 && |r.action| < 256
    requires offset == |EncodeRules(rules)| && offset + 4 + |r.condition| + |r.action| <= RULE_STORE_SIZE
    requires after == Written(before, BASE_ADDR + offset, EncodeRule(r) + [TERMINATOR])
    ensures r.id == TERMINATOR ==> HoldsStore(after, rules)
    ensures r.id != TERMINATOR ==> HoldsStore(after, rules + [r])
    ensures after[..BASE_ADDR] == before[..BASE_ADDR]
  {
    var y := EncodeRule(r);
    AppendedAt(before, BASE_ADDR, EncodeRules(rules), y, TERMINATOR);
    if r.id != TERMINATOR {
      NewRuleEncoding(rules, r);
    } else {
      assert after[BASE_ADDR + offset] == y[0];
    }
  }

  /** The packed form of the rules with one more rule at the end. */
  lemma NewRuleEncoding(rules: seq<Rule>, r: Rule)
    requires AllOk(rules) && RuleOk(r)
    ensures AllOk(rules + [r])
    ensures EncodeRules(rules + [r]) == EncodeRules(rules) + EncodeRule(r)
  {
    EncodeCons(r, []);
    assert [r] + [] == [r];
    EncodeRulesAppend(rules, [r]);
  }

  /** Writing y and then t right after the bytes o found at address b
      leaves o + y at b, t after it, and every other byte as it was. */
  lemma AppendedAt(e: seq<byte>, b: nat, o: seq<byte>, y: seq<byte>, t: byte)
    requires b + |o| + |y| + 1 <= |e|
    requires e[b..b + |o|] == o
    ensures var w := Written(e, b + |o|, y + [t]);
      && w[..b] == e[..b]
      && w[b..b + |o|] == o
      && w[b..b + |o| + |y|] == o + y
      && w[b + |o| + |y|] == t
      && w[b + |o|] == (y + [t])[0]
      && (forall k :: b + |o| + |y| + 1 <= k < |e| ==> w[k] == e[k])
  {
    var w := Written(e, b + |o|, y + [t]);
    assert w[b..b + |o| + |y|] == o + y by {
      forall k | 0 <= k < |o| + |y|
        ensures w[b..b + |o| + |y|][k] == (o + y)[k]
      {
        if k < |o| {
          assert w[b + k] == e[b + k] == e[b..b + |o|][k];
        }
      }
    }
  }

  /** A terminator written over the i-th rule leaves the rules before it. */
  lemma TruncatedStore(before: seq<byte>, after: seq<byte>, rules: seq<Rule>, i: nat)
    requires HoldsStore(before, rules) && i <= |rules|
    requires |EncodeRules(rules[..i])| <= |EncodeRules(rules)|
    requires after == before[BASE_ADDR + |EncodeRules(rules[..i])| := TERMINATOR]
    ensures HoldsStore(after, rules[..i])
  {
    assert rules == rules[..i] + rules[i..];
    EncodeRulesAppend(rules[..i], rules[i..]);
    var pre := EncodeRules(rules[..i]);
    assert after[BASE_ADDR..BASE_ADDR + |pre|] == before[BASE_ADDR..BASE_ADDR + |EncodeRules(rules)|][..|pre|];
  }
}

/**
 * The host's accounts: calls and creations through `VMHost`, nested to any depth, and the conservation of
 * the total balance.
 */
module VmHost {
  import opened Bytes
  import opened Opcodes
  import opened CallGas

  datatype Account = Account(balance: Word, code: seq<byte>)

  type World = map<Word, Account>

  datatype CallKind = KindCall | KindCallCode | KindDelegateCall | KindCreate

  datatype Message = Message(kind: CallKind, depth: nat, sender: Word, recipient: Word, codeAddress: Word, value: Word)

  /** What executed code asks of the host, in order, and how it ends. */
  datatype Plan = Plan(requests: seq<Request>, success: bool, output: seq<byte>)

  /** A call-family instruction, or a creation whose address the host has computed. */
  datatype Request =
    | Calls(op: byte, dst: Word, value: Word, refused: bool, plan: Plan)
    | Creates(endowment: Word, address: Word, emptyInput: bool, plan: Plan)

  // ---------------------------------------------------------------- the specification

  function BalanceOf(w: World, a: Word): Word {
    if a in w then w[a].balance else 0
  }

  function WithAccount(w: World, a: Word): World {
    if a in w then w else w[a := Account(0, [])]
  }

  /** Debit, then credit: the same account may be both sides. */
  function Transfer(w: World, from: Word, to: Word, value: Word): World
    requires from in w && to in w
  {
    var debited := w[from := w[from].(balance := (w[from].balance - value) % TWO_256)];
    debited[to := debited[to].(balance := (value + debited[to].balance) % TWO_256)]
  }

  /** The message `call_impl` builds in a frame executing `msg`. */
  function CallMessage(msg: Message, op: byte, dst: Word, value: Word): Message {
    Message(if op == OP_DELEGATECALL then KindDelegateCall else if op == OP_CALLCODE then KindCallCode else KindCall,
            msg.depth + 1,
            if op == OP_DELEGATECALL then msg.sender else msg.recipient,
            if op == OP_CALL || op == OP_STATICCALL then dst else msg.recipient,
            dst,
            if op == OP_DELEGATECALL then msg.value else if TakesValue(op) then value else 0)
  }

  function CreateMessage(msg: Message, endowment: Word): Message {
    Message(KindCreate, msg.depth + 1, msg.recipient, 0, 0, endowment)
  }

  /** The checks `call_impl` and `create_impl` make before they call the host. */
  predicate RequestMade(w: World, msg: Message, r: Request) {
    msg.depth < MAX_DEPTH &&
    match r
    case Calls(op, _, value, refused, _) =>
      && IsCall(op) && !(TakesValue(op) && value != 0 && BalanceOf(w, msg.recipient) < value)
      && !(op == OP_DELEGATECALL && refused)
    case Creates(endowment, _, _, _) => !(endowment != 0 && BalanceOf(w, msg.recipient) < endowment)
  }

  function HandleCall(w: World, msg: Message, plan: Plan): (World, bool)
    decreases plan, |plan.requests| + 1
  {
    if msg.sender !in w then (w, false)
    else
      var open := WithAccount(w, msg.codeAddress);
      var moved := if msg.kind == KindCall then Transfer(open, msg.sender, msg.codeAddress, msg.value) else open;
      if moved[msg.codeAddress].code == [] then (moved, true)
      else (Requests(moved, msg, plan, |plan.requests|), plan.success)
  }

  /** A created account starts empty, and no value is moved to it. */
  function HandleCreate(w: World, msg: Message, address: Word, emptyInput: bool, plan: Plan): (World, bool)
    decreases plan, |plan.requests| + 1
  {
    if address in w then (w, false)
    else
      var open := w[address := Account(0, [])];
      if emptyInput then (open, true)
      else
        var init := msg.(kind := KindCall, recipient := address);
        var done := Requests(open, init, plan, |plan.requests|);
        if plan.success then (done[address := Account(BalanceOf(done, address), plan.output)], true) else (done, false)
  }

  /** The first n requests of a plan, made by the frame executing `msg`. */
  function Requests(w: World, msg: Message, plan: Plan, n: nat): World
    requires n <= |plan.requests|
    decreases plan, n
  {
    if n == 0 then w
    else MakeRequest(Requests(w, msg, plan, n - 1), msg, plan.requests[n - 1])
  }

  function MakeRequest(w: World, msg: Message, r: Request): World
    decreases r
  {
    if !RequestMade(w, msg, r) then w
    else
      match r
      case Calls(op, dst, value, _, plan) => HandleCall(w, CallMessage(msg, op, dst, value), plan).0
      case Creates(endowment, address, emptyInput, plan) =>
        HandleCreate(w, CreateMessage(msg, endowment), address, emptyInput, plan).0
  }

  // ---------------------------------------------------------------- the total balance

  ghost function Total(w: World): nat {
    if w == map[] then 0
    else
      var a :| a in w;
      w[a].balance + Total(w - {a})
  }

  lemma {:induction false} TotalSplit(w: World, a: Word)
    requires a in w
    ensures Total(w) == w[a].balance + Total(w - {a})
    decreases |w|
  {
    var b :| b in w && Total(w) == w[b].balance + Total(w - {b});
    if a != b {
      TotalSplit(w - {b}, a);
      TotalSplit(w - {a}, b);
      assert (w - {b}) - {a} == (w - {a}) - {b};
    }
  }

  lemma TotalUpdate(w: World, a: Word, account: Account)
    ensures Total(w[a := account]) == Total(w) - BalanceOf(w, a) + account.balance
  {
    TotalSplit(w[a := account], a);
    if a in w {
      TotalSplit(w, a);
      assert w[a := account] - {a} == w - {a};
    } else {
      assert w[a := account] - {a} == w;
    }
  }

  lemma BalancesBounded(w: World, a: Word, b: Word)
    requires a in w && b in w
    ensures w[a].balance <= Total(w)
    ensures a != b ==> w[a].balance + w[b].balance <= Total(w)
  {
    TotalSplit(w, a);
    if a != b { TotalSplit(w - {a}, b); }
  }

  /** The two balances after a transfer between different accounts. */
  lemma TransferTotal(w: World, from: Word, to: Word, value: Word)
    requires from in w && to in w
    ensures var w' := Transfer(w, from, to, value);
      from != to ==> Total(w') == Total(w) - w[from].balance + (w[from].balance - value) % TWO_256
                                  - w[to].balance + (value + w[to].balance) % TWO_256
    ensures from == to ==> Total(Transfer(w, from, to, value)) == Total(w)
  {
    hide Total;
    var from' := w[from].(balance := (w[from].balance - value) % TWO_256);
    var debited := w[from := from'];
    var to' := debited[to].(balance := (value + debited[to].balance) % TWO_256);
    TotalUpdate(w, from, from');
    TotalUpdate(debited, to, to');
    if from == to {
      Wrap(w[from].balance - value);
      Wrap(value + from'.balance);
    }
  }

  /**
   * A transfer conserves the total exactly when it stays in one account, is covered by the sender's balance,
   * or wraps around on both sides.
   */
  lemma TransferExact(w: World, from: Word, to: Word, value: Word)
    requires from in w && to in w && Total(w) < TWO_256
    ensures Total(Transfer(w, from, to, value)) == Total(w)
      <==> from == to || value <= w[from].balance || w[to].balance + value >= TWO_256
  {
    hide Total, Transfer;
    TransferTotal(w, from, to, value);
    BalancesBounded(w, from, to);
    Wrap(w[from].balance - value);
    Wrap(value + w[to].balance);
  }

  /** What the caller has established before the host runs a message. */
  predicate Covered(w: World, msg: Message) {
    msg.kind == KindCall && msg.sender in w ==> msg.value <= w[msg.sender].balance
  }

  lemma MessageCovered(w: World, msg: Message, op: byte, dst: Word, value: Word, refused: bool, plan: Plan)
    requires RequestMade(w, msg, Calls(op, dst, value, refused, plan))
    ensures Covered(w, CallMessage(msg, op, dst, value))
  {
  }

  lemma Opened(w: World, a: Word)
    ensures Total(WithAccount(w, a)) == Total(w)
  {
    TotalUpdate(w, a, Account(0, []));
  }

  /**
   * The balance is conserved through every call, whatever the executed code asks for: self-calls, calls to
   * new accounts, failures and nesting included. Only the check made before the call is assumed.
   */
  lemma {:induction false} CallConserved(w: World, msg: Message, plan: Plan)
    requires Total(w) < TWO_256 && Covered(w, msg)
    ensures Total(HandleCall(w, msg, plan).0) == Total(w)
    decreases plan, |plan.requests| + 1
  {
    hide Total, Transfer;
    if msg.sender in w {
      var open := WithAccount(w, msg.codeAddress);
      Opened(w, msg.codeAddress);
      TransferExact(open, msg.sender, msg.codeAddress, msg.value);
      var moved := if msg.kind == KindCall then Transfer(open, msg.sender, msg.codeAddress, msg.value) else open;
      RequestsConserved(moved, msg, plan, |plan.requests|);
    }
  }

  lemma {:induction false} CreateConserved(w: World, msg: Message, address: Word, emptyInput: bool, plan: Plan)
    requires Total(w) < TWO_256
    ensures Total(HandleCreate(w, msg, address, emptyInput, plan).0) == Total(w)
    decreases plan, |plan.requests| + 1
  {
    hide Total;
    if address !in w {
      TotalUpdate(w, address, Account(0, []));
      var open := w[address := Account(0, [])];
      var init := msg.(kind := KindCall, recipient := address);
      RequestsConserved(open, init, plan, |plan.requests|);
      var done := Requests(open, init, plan, |plan.requests|);
      TotalUpdate(done, address, Account(BalanceOf(done, address), plan.output));
    }
  }

  lemma {:induction false} RequestsConserved(w: World, msg: Message, plan: Plan, n: nat)
    requires Total(w) < TWO_256 && n <= |plan.requests|
    ensures Total(Requests(w, msg, plan, n)) == Total(w)
    decreases plan, n
  {
    hide Total, MakeRequest;
    if n > 0 {
      RequestsConserved(w, msg, plan, n - 1);
      RequestConserved(Requests(w, msg, plan, n - 1), msg, plan.requests[n - 1]);
    }
  }

  lemma {:induction false} RequestConserved(w: World, msg: Message, r: Request)
    requires Total(w) < TWO_256
    ensures Total(MakeRequest(w, msg, r)) == Total(w)
    decreases r
  {
    hide Total, HandleCall, HandleCreate;
    if RequestMade(w, msg, r) {
      match r
      case Calls(op, dst, value, refused, plan) =>
        MessageCovered(w, msg, op, dst, value, refused, plan);
        CallConserved(w, CallMessage(msg, op, dst, value), plan);
      case Creates(endowment, address, emptyInput, plan) =>
        CreateConserved(w, CreateMessage(msg, endowment), address, emptyInput, plan);
    }
  }

  // ---------------------------------------------------------------- what a message does to the accounts

  /** w' is w with `value` moved from one account to another, which exists afterwards; nothing else differs. */
  ghost predicate Moved(w: World, w': World, from: Word, to: Word, value: Word)
    requires from in w
  {
    && w'.Keys == w.Keys + {to}
    && w'[from].balance == w[from].balance - (if from == to then 0 else value)
    && BalanceOf(w', to) == BalanceOf(w, to) + (if from == to then 0 else value)
    && (forall a :: a in w && a != from && a != to ==> w'[a] == w[a])
    && (forall a :: a in w' ==> w'[a].code == if a in w then w[a].code else [])
  }

  /** The code at an address. */
  function CodeOf(w: World, a: Word): seq<byte> {
    if a in w then w[a].code else []
  }

  /** A message comes to this: the code at its code address runs on accounts `seen`, or there is none to run. */
  ghost predicate RunsOn(w: World, msg: Message, plan: Plan, seen: World) {
    HandleCall(w, msg, plan) ==
      if CodeOf(w, msg.codeAddress) == [] then (seen, true)
      else (Requests(seen, msg, plan, |plan.requests|), plan.success)
  }

  /**
   * A covered call moves its value before any code runs: the sender's balance falls, the recipient's rises, every
   * other account and all code stay, and a call to an account without code succeeds with just that.
   */
  lemma CallMoves(w: World, msg: Message, plan: Plan) returns (seen: World)
    requires msg.kind == KindCall && msg.sender in w && Covered(w, msg) && Total(w) < TWO_256
    ensures Moved(w, seen, msg.sender, msg.codeAddress, msg.value) && RunsOn(w, msg, plan, seen)
    ensures msg.sender == msg.codeAddress ==> seen == w
  {
    hide Total, Requests;
    var from, to := msg.sender, msg.codeAddress;
    var open := WithAccount(w, to);
    seen := Transfer(open, from, to, msg.value);
    Opened(w, to);
    BalancesBounded(open, from, to);
    Wrap(w[from].balance - msg.value);
    if from == to {
      Wrap(msg.value + (w[from].balance - msg.value));
      assert seen == w;
    } else {
      Wrap(msg.value + open[to].balance);
    }
  }

  /** Other kinds of message move nothing, and none from an unknown sender does anything. */
  lemma OthersMoveNothing(w: World, msg: Message, plan: Plan)
    ensures msg.sender !in w ==> HandleCall(w, msg, plan) == (w, false)
    ensures msg.sender in w && msg.kind != KindCall ==> RunsOn(w, msg, plan, WithAccount(w, msg.codeAddress))
  {
    hide Requests;
  }

  /**
   * The four call instructions, made by the account that executes `msg`: CALL moves its value to dst, STATICCALL
   * nothing; CALLCODE and DELEGATECALL run dst's code for the caller, the latter in its caller's name.
   */
  lemma RequestEffect(w: World, msg: Message, op: byte, dst: Word, value: Word, refused: bool, plan: Plan)
    returns (seen: World)
    requires op in {OP_CALL, OP_CALLCODE, OP_DELEGATECALL, OP_STATICCALL} && msg.depth < 1024
    requires op in {OP_CALL, OP_CALLCODE} ==> value <= BalanceOf(w, msg.recipient)
    requires op == OP_DELEGATECALL ==> !refused
    requires msg.recipient in w && Total(w) < TWO_256
    ensures var w' := MakeRequest(w, msg, Calls(op, dst, value, refused, plan));
      var sent := if op == OP_CALL then value else 0;
      var depth, self, n := msg.depth + 1, msg.recipient, |plan.requests|;
      && (op == OP_CALL || op == OP_STATICCALL ==>
            && Moved(w, seen, self, dst, sent)
            && w' == if CodeOf(w, dst) == [] then seen
                     else Requests(seen, Message(KindCall, depth, self, dst, dst, sent), plan, n))
      && (op == OP_CALLCODE ==>
            w' == if CodeOf(w, dst) == [] then WithAccount(w, dst)
                  else Requests(w, Message(KindCallCode, depth, self, self, dst, value), plan, n))
      && (op == OP_DELEGATECALL && msg.sender in w && CodeOf(w, dst) != [] ==>
            w' == Requests(w, Message(KindDelegateCall, depth, msg.sender, self, dst, msg.value), plan, n))
  {
    hide Total, Requests, HandleCall;
    var call := CallMessage(msg, op, dst, value);
    MessageCovered(w, msg, op, dst, value, refused, plan);
    OthersMoveNothing(w, call, plan);
    seen := w;
    if op == OP_CALL || op == OP_STATICCALL {
      seen := CallMoves(w, call, plan);
      assert call == Message(KindCall, msg.depth + 1, msg.recipient, dst, dst, if op == OP_CALL then value else 0);
    }
  }

  /** A creation is made at the next depth, in the name of the account that executes `msg`. */
  lemma CreateRequestEffect(w: World, msg: Message, endowment: Word, address: Word, emptyInput: bool, plan: Plan)
    requires msg.depth < 1024 && endowment <= BalanceOf(w, msg.recipient)
    ensures var call := Message(KindCreate, msg.depth + 1, msg.recipient, 0, 0, endowment);
      MakeRequest(w, msg, Creates(endowment, address, emptyInput, plan))
      == HandleCreate(w, call, address, emptyInput, plan).0
  {
    hide HandleCreate;
  }

  /** A request that fails the checks before the host is called changes nothing. */
  lemma RefusedRequest(w: World, msg: Message, r: Request)
    requires msg.depth >= 1024
      || (r.Calls? && r.op in {OP_CALL, OP_CALLCODE} && r.value != 0 && BalanceOf(w, msg.recipient) < r.value)
      || (r.Creates? && r.endowment != 0 && BalanceOf(w, msg.recipient) < r.endowment)
    ensures MakeRequest(w, msg, r) == w
  {
  }

  /**
   * Creation fails at an address in use; otherwise the account starts empty and without value, its init code makes
   * its requests in its own name, and on success the output becomes its code while its balance stays.
   */
  lemma CreateEffect(w: World, msg: Message, address: Word, emptyInput: bool, plan: Plan)
    ensures address in w ==> HandleCreate(w, msg, address, emptyInput, plan) == (w, false)
    ensures address !in w && emptyInput ==>
      HandleCreate(w, msg, address, emptyInput, plan) == (w[address := Account(0, [])], true)
    ensures address !in w && !emptyInput ==>
      var init := Message(KindCall, msg.depth, msg.sender, address, msg.codeAddress, msg.value);
      var done := Requests(w[address := Account(0, [])], init, plan, |plan.requests|);
      var (w', ok) := HandleCreate(w, msg, address, emptyInput, plan);
      && ok == plan.success
      && (ok ==> address in w' && w'[address].code == plan.output && w'[address].balance == BalanceOf(done, address))
      && (ok ==> forall a :: a != address ==> (a in w' <==> a in done) && (a in done ==> w'[a] == done[a]))
      && (!ok ==> w' == done)
  {
    hide Requests;
  }

  // ---------------------------------------------------------------- the host in place

  class VMHost {
    var accounts: World

    constructor (accounts: World)
      ensures this.accounts == accounts
    {
      this.accounts := accounts;
    }

    /** `handle_call` */
    method Call(msg: Message, plan: Plan) returns (ok: bool)
      modifies this
      ensures (accounts, ok) == HandleCall(old(accounts), msg, plan)
      ensures old(Total(accounts)) < TWO_256 && old(Covered(accounts, msg)) ==> Total(accounts) == old(Total(accounts))
      decreases plan, |plan.requests| + 1
    {
      hide Total, MakeRequest;
      if Total(accounts) < TWO_256 && Covered(accounts, msg) { CallConserved(accounts, msg, plan); }
      if msg.sender !in accounts {
        return false;
      }
      if msg.codeAddress !in accounts {
        accounts := accounts[msg.codeAddress := Account(0, [])];
      }
      if msg.kind == KindCall {
        var balance := accounts[msg.sender].balance;
        accounts := accounts[msg.sender := accounts[msg.sender].(balance := (balance - msg.value) % TWO_256)];
        var credited := (msg.value + accounts[msg.codeAddress].balance) % TWO_256;
        accounts := accounts[msg.codeAddress := accounts[msg.codeAddress].(balance := credited)];
      }
      if accounts[msg.codeAddress].code == [] {
        return true;
      }
      Evaluate(msg, plan);
      return plan.success;
    }

    /** `handle_create` */
    method Create(msg: Message, address: Word, emptyInput: bool, plan: Plan) returns (ok: bool)
      modifies this
      ensures (accounts, ok) == HandleCreate(old(accounts), msg, address, emptyInput, plan)
      ensures old(Total(accounts)) < TWO_256 ==> Total(accounts) == old(Total(accounts))
      decreases plan, |plan.requests| + 1
    {
      hide Total, MakeRequest;
      if Total(accounts) < TWO_256 { CreateConserved(accounts, msg, address, emptyInput, plan); }
      if address in accounts {
        return false;
      }
      accounts := accounts[address := Account(0, [])];
      if emptyInput {
        return true;
      }
      Evaluate(msg.(kind := KindCall, recipient := address), plan);
      if plan.success {
        var balance := BalanceOf(accounts, address);
        accounts := accounts[address := Account(balance, plan.output)];
      }
      return plan.success;
    }

    /** `evaluate`, seen from the host: the requests of the executed code, one after another. */
    method Evaluate(msg: Message, plan: Plan)
      modifies this
      ensures accounts == Requests(old(accounts), msg, plan, |plan.requests|)
      decreases plan, |plan.requests|
    {
      hide MakeRequest, Total;
      var i := 0;
      while i < |plan.requests|
        invariant 0 <= i <= |plan.requests|
        invariant accounts == Requests(old(accounts), msg, plan, i)
      {
        Make(msg, plan.requests[i]);
        i := i + 1;
      }
    }

    /** `call_impl` and `create_impl`, as far as accounts are concerned. */
    method Make(msg: Message, r: Request)
      modifies this
      ensures accounts == MakeRequest(old(accounts), msg, r)
      decreases r
    {
      hide HandleCall, HandleCreate, Total;
      if RequestMade(accounts, msg, r) {
        var ok;
        match r
        case Calls(op, dst, value, _, plan) =>
          ok := Call(CallMessage(msg, op, dst, value), plan);
        case Creates(endowment, address, emptyInput, plan) =>
          ok := Create(CreateMessage(msg, endowment), address, emptyInput, plan);
      }
    }
  }
}

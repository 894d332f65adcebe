/**
 * The transaction value object: one balance inquiry, transfer or withdrawal
 * read from a log line, validated when it is constructed.
 */
module Transactions {
  import opened Results
  import opened Text
  import opened Decimals
  import opened Timestamps

  datatype OperationType = BalanceInquiry | Transferred | Withdrew

  /**
   * A transaction. `recipient` is the Java field that may be null; the
   * constructor stores a recipient only for transfers.
   */
  datatype Transaction = Transaction(
    kind: OperationType,
    timestamp: Timestamp,
    sender: string,
    amount: Decimal,
    recipient: Option<string>)

  /** The `IllegalArgumentException`s the constructor throws. */
  datatype InvalidTransaction = NonPositiveAmount | MissingRecipient

  /** A recipient that `recipient == null || recipient.trim().isEmpty()` rejects. */
  predicate MissingName(recipient: Option<string>) {
    recipient.None? || IsBlank(recipient.value)
  }

  /**
   * The five-argument constructor; the four-argument one is the same with
   * no recipient. The amount check comes first, then the recipient check.
   */
  function New(kind: OperationType, timestamp: Timestamp, sender: string,
               amount: Decimal, recipient: Option<string>): (r: Result<Transaction, InvalidTransaction>)
    ensures r.Failure? <==> Value(amount) <= 0.0 || (kind == Transferred && MissingName(recipient))
    ensures r.Failure? && Value(amount) <= 0.0 ==> r.error == NonPositiveAmount
    ensures r.Failure? && Value(amount) > 0.0 ==> r.error == MissingRecipient
    ensures r.Success? ==>
      && r.value.kind == kind && r.value.timestamp == timestamp
      && r.value.sender == sender && r.value.amount == amount
      && (kind == Transferred ==> r.value.recipient == recipient)
      && (kind != Transferred ==> r.value.recipient == None)
  {
    PositiveValue(amount);
    if amount.unscaled <= 0 then Failure(NonPositiveAmount)
    else if kind == Transferred && (recipient.None? || IsBlank(recipient.value)) then Failure(MissingRecipient)
    else Success(Transaction(kind, timestamp, sender, amount,
                             if kind == Transferred then recipient else None))
  }

  /** What every constructed transaction satisfies. */
  predicate Valid(t: Transaction) {
    && Value(t.amount) > 0.0
    && (t.kind == Transferred <==> t.recipient.Some?)
    && (t.kind == Transferred ==> !MissingName(t.recipient))
  }

  /** The constructor yields exactly the valid transactions. */
  lemma NewYieldsValid(kind: OperationType, timestamp: Timestamp, sender: string,
                       amount: Decimal, recipient: Option<string>)
    ensures var r := New(kind, timestamp, sender, amount, recipient);
      r.Success? ==> Valid(r.value)
  {
  }

  lemma ValidIsConstructible(t: Transaction)
    requires Valid(t)
    ensures New(t.kind, t.timestamp, t.sender, t.amount, t.recipient) == Success(t)
  {
  }

  /** The words of a log line that name the operation. */
  function Verb(kind: OperationType): string {
    match kind
    case BalanceInquiry => "balance inquiry"
    case Transferred => "transferred"
    case Withdrew => "withdrew"
  }

  /**
   * `toString`: `[time] sender verb amount`, and ` to recipient` for a
   * transfer. The amount has its trailing zeros stripped. `String.format`
   * prints a null recipient as `null`, which no constructed transfer has.
   */
  function Render(t: Transaction): string {
    var head := "[" + Format(t.timestamp) + "] " + t.sender + " " + Verb(t.kind) + " "
                + PlainString(t.amount);
    match t.kind
    case Transferred => head + " to " + (match t.recipient case Some(n) => n case None => "null")
    case _ => head
  }

  /** `equals`: every field equal, the amounts compared numerically. */
  predicate Equal(a: Transaction, b: Transaction) {
    && a.kind == b.kind
    && NumEq(a.amount, b.amount)
    && a.recipient == b.recipient
    && a.timestamp == b.timestamp
    && a.sender == b.sender
  }

  /** The representative of a transaction's equality class: its amount stripped. */
  function Canonical(t: Transaction): Transaction {
    t.(amount := StripZeros(t.amount))
  }

  /**
   * Equality ignores the amount's scale and nothing else: two transactions
   * are equal exactly when their canonical forms are identical.
   */
  lemma EqualIffSameCanonical(a: Transaction, b: Transaction)
    ensures Equal(a, b) <==> Canonical(a) == Canonical(b)
  {
    NumEqIffSameStripped(a.amount, b.amount);
  }

  /** `equals` is an equivalence relation. */
  lemma EqualIsEquivalence(a: Transaction, b: Transaction, c: Transaction)
    ensures Equal(a, a)
    ensures Equal(a, b) ==> Equal(b, a)
    ensures Equal(a, b) && Equal(b, c) ==> Equal(a, c)
  {
    EqualIffSameCanonical(a, a);
    EqualIffSameCanonical(a, b);
    EqualIffSameCanonical(b, a);
    EqualIffSameCanonical(b, c);
    EqualIffSameCanonical(a, c);
  }

  /** A withdrawal of 5 equals the same withdrawal of 5.00, though the values differ. */
  lemma EqualIgnoresScale(ts: Timestamp, sender: string)
    ensures var five := Transaction(Withdrew, ts, sender, Decimal(5, 0), None);
            var fivePointZeroZero := Transaction(Withdrew, ts, sender, Decimal(500, 2), None);
            Equal(five, fivePointZeroZero) && five != fivePointZeroZero
  {
  }

  /** `compareTo`: by timestamp only. */
  function CompareTo(a: Transaction, b: Transaction): (r: int)
    ensures r == 0 <==> a.timestamp == b.timestamp
    ensures r < 0 <==> Before(a.timestamp, b.timestamp)
    ensures r > 0 <==> Before(b.timestamp, a.timestamp)
  {
    Compare(a.timestamp, b.timestamp)
  }

  /**
   * The ordering is not consistent with `equals`: transactions that differ
   * in everything but their timestamp still compare as 0.
   */
  lemma CompareIgnoresAllButTime(a: Transaction, b: Transaction)
    requires a.timestamp == b.timestamp && a.sender != b.sender
    ensures CompareTo(a, b) == 0 && !Equal(a, b)
  {
  }
}

/** The data model of the ledger: the three closed enumerations, the gift
    record and the summary record the settlement produces. */
module Gifts {

  datatype Option<T> = None | Some(value: T)

  /** Who receives a gift, in the enumeration's declaration order. */
  datatype Recipient = Jacopo | Leonardo | Mary | Anna | Paolo | Altri

  /** Who fronted the money: a two-party ledger. */
  datatype Payer = Paolo | Mary

  datatype Occasion = Natale | Compleanno | Anniversario | Altro

  /** Object.values(Recipient): every recipient once, in declaration order. */
  const AllRecipients: seq<Recipient> :=
    [Jacopo, Leonardo, Recipient.Mary, Anna, Recipient.Paolo, Altri]

  /** The string value behind each enumeration member. */
  function RecipientName(r: Recipient): string {
    match r
    case Jacopo => "Jacopo"
    case Leonardo => "Leonardo"
    case Mary => "Mary"
    case Anna => "Anna"
    case Paolo => "Paolo"
    case Altri => "Altri"
  }

  function PayerName(p: Payer): string {
    match p
    case Paolo => "Paolo"
    case Mary => "Mary"
  }

  function OccasionName(o: Occasion): string {
    match o
    case Natale => "Natale"
    case Compleanno => "Compleanno"
    case Anniversario => "Anniversario"
    case Altro => "Altro"
  }

  function OtherPayer(p: Payer): Payer {
    match p
    case Paolo => Payer.Mary
    case Mary => Payer.Paolo
  }

  /** A gift record. The optional links are strings with "" for a missing
      link; createdAt may be missing on records loaded from the sheet. */
  datatype Gift = Gift(
    id: string,
    title: string,
    source: string,
    cost: real,
    recipient: Recipient,
    isReceived: bool,
    payer: Payer,
    isSplit: bool,
    isReturned: bool,
    isRepaid: bool,
    isExcluded: bool,
    isDeleted: bool,
    occasion: Occasion,
    year: int,
    createdAt: Option<int>,
    imageUrl: string,
    productUrl: string,
    trackingUrl: string,
    orderDetailUrl: string)

  /** `createdAt || 0`: a missing timestamp sorts as 0. */
  function CreatedAtOrZero(g: Gift): int {
    match g.createdAt
    case None => 0
    case Some(t) => t
  }

  datatype RecipientStats = RecipientStats(name: string, count: nat, value: real)

  datatype FinancialSummary = FinancialSummary(
    totalSpent: real,
    totalPaoloPaid: real,
    totalMaryPaid: real,
    maryOwesPaolo: real,
    paoloOwesMary: real,
    netSettlement: real,
    recipientStats: seq<RecipientStats>)
}

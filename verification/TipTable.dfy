/** The tips table, the notifications list and the readers that turn requests into rows. */
module TipTable {
  import opened Options
  import Bytes

  datatype Asset = XLM | USDC
  datatype TipStatus = Pending | Completed
  datatype WithdrawalStatus = NoWithdrawal | WithdrawalPending | WithdrawalCompleted | WithdrawalFailed

  /** A row. Its id is its position in the table; amounts are in units of 10^-7. */
  datatype Tip = Tip(
    creatorId: string,
    supporterId: Option<string>,
    senderWallet: string,
    receiverWallet: string,
    amount: int,
    asset: Asset,
    assetIssuer: Option<string>,
    message: string,
    transactionHash: Option<string>,
    status: TipStatus,
    withdrawalStatus: WithdrawalStatus,
    withdrawalHash: Option<string>)

  /** A row as queries see it, with the id and the creation time the database gave it. */
  datatype Row = Row(id: nat, createdAt: int, tip: Tip)

  function AssetName(a: Asset): string { if a.XLM? then "XLM" else "USDC" }

  /** A tip-received notification; `tip` is the id of the tip it was sent for. */
  datatype Note = Note(tip: nat, userId: string, senderWallet: string, amount: int, asset: Asset)

  datatype Ledger = Ledger(tips: seq<Tip>, notes: seq<Note>)

  datatype Error =
    | InvalidSignature | InvalidTimestamp | OutsideReplayWindow | MissingHash | UnsupportedTopic
    | MissingField | UnsupportedAsset | InvalidAmount | UnsupportedStatus
    | CreatorNotFound | UsdcNotConfigured | TipNotFound | UniqueViolation

  /** What the service reads from its surroundings: the user that owns a wallet, the configured
      USDC issuer, and `Number(text)` in units of 10^-7 (None when not a finite number). */
  datatype Config = Config(users: map<string, string>, usdcIssuer: Option<string>, number: string -> Option<int>)

  /** `USDC_ISSUER || null` */
  function Issuer(cfg: Config): Option<string> { OrElse(cfg.usdcIssuer, None) }

  // ---------- Queries ----------

  predicate HasHash(tips: seq<Tip>, hash: string) {
    exists i | 0 <= i < |tips| :: tips[i].transactionHash == Some(hash)
  }

  predicate HasWithdrawalHash(tips: seq<Tip>, hash: string) {
    exists i | 0 <= i < |tips| :: tips[i].withdrawalHash == Some(hash)
  }

  /** The duplicate check looks for the hash in either column. */
  predicate IsDuplicate(tips: seq<Tip>, hash: string) {
    HasHash(tips, hash) || HasWithdrawalHash(tips, hash)
  }

  function FindById(count: nat, id: string): (i: Option<nat>)
    ensures i.Some? ==> i.value < count
  {
    if count == 0 then None
    else if Bytes.NatText(count - 1) == id then Some(count - 1)
    else FindById(count - 1, id)
  }

  /** An id names at most one row, and a text that is no row's id names none. */
  lemma {:induction false} FindByIdExactly(count: nat, id: string)
    ensures forall i: nat :: FindById(count, id) == Some(i) <==> i < count && id == Bytes.NatText(i)
  {
    if count > 0 {
      FindByIdExactly(count - 1, id);
      forall i: nat | Bytes.NatText(count - 1) == Bytes.NatText(i)
        ensures i == count - 1
      {
        Bytes.NatTextDigits(count - 1);
        Bytes.NatTextDigits(i);
      }
    }
  }

  function FindByHash(tips: seq<Tip>, hash: string): (i: Option<nat>)
    ensures i.Some? ==> i.value < |tips| && tips[i.value].transactionHash == Some(hash)
    ensures i.None? ==> !HasHash(tips, hash)
  {
    if tips == [] then None
    else if tips[|tips| - 1].transactionHash == Some(hash) then Some(|tips| - 1)
    else FindByHash(tips[..|tips| - 1], hash)
  }

  // ---------- Saving ----------

  /** The unique constraint on `transactionHash`. */
  predicate CanInsert(tips: seq<Tip>, t: Tip) {
    t.transactionHash.Some? ==> !HasHash(tips, t.transactionHash.value)
  }

  /** Both unique constraints, for a row that replaces row i. */
  predicate CanUpdate(tips: seq<Tip>, i: nat, t: Tip) {
    forall j | 0 <= j < |tips| && j != i ::
      && (t.transactionHash.Some? ==> tips[j].transactionHash != t.transactionHash)
      && (t.withdrawalHash.Some? ==> tips[j].withdrawalHash != t.withdrawalHash)
  }

  // ---------- Requests ----------

  /** A field of an untyped JSON payload; a number is given in units of 10^-7. */
  datatype Json = Undefined | Text(text: string) | Num(units: int) | NonFinite | Other

  datatype EventData = EventData(
    receiverWallet: Json, senderWallet: Json, asset: Json, amount: Json, message: Json, assetIssuer: Json,
    tipId: Json, tipTransactionHash: Json, status: Json)

  /** A contract event. A plain topic string is a one-element list; a timestamp that is not a
      date is None. */
  datatype Event = Event(topic: seq<string>, transactionHash: string, timestamp: Option<int>, data: EventData)

  datatype CreateTipDto = CreateTipDto(
    receiverWallet: string, senderWallet: Option<string>, amount: int, message: Option<string>,
    asset: Option<string>, assetIssuer: Option<string>, transactionHash: Option<string>)

  predicate IsSpace(c: char) {
    c in " \t\n\r" || c as int in {0x0B, 0x0C, 0xA0, 0x1680, 0x2028, 0x2029, 0x202F, 0x205F, 0x3000, 0xFEFF}
    || 0x2000 <= c as int <= 0x200A
  }

  function Trim(s: string): string {
    if s == [] then s
    else if IsSpace(s[0]) then Trim(s[1..])
    else if IsSpace(s[|s| - 1]) then Trim(s[..|s| - 1])
    else s
  }

  /** `toUpperCase` as far as it can produce ASCII letters: besides a to z, the long s. */
  function Upper(s: string): string {
    seq(|s|, i requires 0 <= i < |s| =>
      if 'a' <= s[i] <= 'z' then (s[i] as int - 32) as char else if s[i] as int == 0x17F then 'S' else s[i])
  }

  /** `toLowerCase` as far as it can produce ASCII letters: besides A to Z, the Kelvin sign. */
  function Lower(s: string): string {
    seq(|s|, i requires 0 <= i < |s| =>
      if 'A' <= s[i] <= 'Z' then (s[i] as int + 32) as char else if s[i] as int == 0x212A then 'k' else s[i])
  }

  function ReadString(v: Json): Result<string, Error> {
    if v.Text? && Trim(v.text) != "" then Good(Trim(v.text)) else Bad(MissingField)
  }

  function ReadOptionalString(v: Json): Option<string> {
    if v.Text? && Trim(v.text) != "" then Some(Trim(v.text)) else None
  }

  function ReadAmount(v: Json, cfg: Config): (r: Result<int, Error>)
    ensures r.Good? ==> r.value > 0
  {
    var units :=
      if v.Num? then Good(v.units)
      else if v.NonFinite? then Bad(InvalidAmount)
      else
        match ReadString(v)
        case Bad(e) => Bad(e)
        case Good(text) => if cfg.number(text).Some? then Good(cfg.number(text).value) else Bad(InvalidAmount);
    if units.Good? && units.value <= 0 then Bad(InvalidAmount) else units
  }

  function NormalizeAsset(v: Json): Result<Asset, Error> {
    match ReadOptionalString(v)
    case None => Good(XLM)
    case Some(text) =>
      if Upper(text) == "XLM" then Good(XLM) else if Upper(text) == "USDC" then Good(USDC) else Bad(UnsupportedAsset)
  }

  /** A missing status is undefined rather than null, so it is rejected like an unknown one. */
  function NormalizeWithdrawalStatus(v: Json): Result<WithdrawalStatus, Error> {
    match ReadOptionalString(v)
    case None => Bad(UnsupportedStatus)
    case Some(text) =>
      if Lower(text) == "pending" then Good(WithdrawalPending)
      else if Lower(text) == "failed" then Good(WithdrawalFailed)
      else if Lower(text) == "completed" then Good(WithdrawalCompleted)
      else Bad(UnsupportedStatus)
  }

  /** The row a tip event stands for, or why it is rejected. */
  function TipOfEvent(hash: string, data: EventData, cfg: Config): (r: Result<Tip, Error>)
    ensures r.Good? ==> r.value.transactionHash == Some(hash) && r.value.status == Completed && r.value.amount > 0
    ensures r.Good? ==> r.value.withdrawalHash == None
  {
    var receiver := ReadString(data.receiverWallet);
    var sender := ReadString(data.senderWallet);
    var asset := NormalizeAsset(data.asset);
    var amount := ReadAmount(data.amount, cfg);
    if receiver.Bad? then Bad(receiver.error)
    else if sender.Bad? then Bad(sender.error)
    else if asset.Bad? then Bad(asset.error)
    else if amount.Bad? then Bad(amount.error)
    else if receiver.value !in cfg.users then Bad(CreatorNotFound)
    else
      Good(Tip(cfg.users[receiver.value], None, sender.value, receiver.value, amount.value, asset.value,
               if asset.value == USDC then OrElse(ReadOptionalString(data.assetIssuer), Issuer(cfg)) else None,
               TextOr(ReadOptionalString(data.message), ""), Some(hash), Completed, NoWithdrawal, None))
  }

  /** The row a creation request stands for, or why it is rejected. */
  function TipOfDto(dto: CreateTipDto, supporterId: Option<string>, cfg: Config): (r: Result<Tip, Error>)
    ensures r.Good? ==> r.value.amount > 0 && r.value.withdrawalHash == None
    ensures r.Good? ==> (r.value.status == Completed <==> r.value.transactionHash.Some?)
  {
    var asset := TextOr(dto.asset, "XLM");
    var hash := OrElse(dto.transactionHash, None);
    if dto.receiverWallet !in cfg.users then Bad(CreatorNotFound)
    else if dto.amount <= 0 then Bad(InvalidAmount)
    else if asset == "USDC" && Issuer(cfg).None? then Bad(UsdcNotConfigured)
    else if asset != "XLM" && asset != "USDC" then Bad(UnsupportedAsset)
    else
      Good(Tip(cfg.users[dto.receiverWallet], OrElse(supporterId, None), TextOr(dto.senderWallet, ""),
               dto.receiverWallet, dto.amount, if asset == "USDC" then USDC else XLM,
               if asset == "USDC" then OrElse(dto.assetIssuer, Issuer(cfg)) else None,
               TextOr(dto.message, ""), hash, if hash.Some? then Completed else Pending, NoWithdrawal, None))
  }

  // ---------- What the readers mean ----------

  predicate AllSpace(s: string) { forall k | 0 <= k < |s| :: IsSpace(s[k]) }

  lemma {:induction false} TrimCuts(s: string) returns (i: nat, j: nat)
    ensures i <= j <= |s| && Trim(s) == s[i..j]
    ensures forall k | 0 <= k < i || j <= k < |s| :: IsSpace(s[k])
  {
    i, j := 0, |s|;
    if s != [] && IsSpace(s[0]) {
      var rest := s[1..];
      i, j := TrimCuts(rest);
      assert rest[i..j] == s[i + 1..j + 1];
      i, j := i + 1, j + 1;
      forall k | 0 <= k < i || j <= k < |s|
        ensures IsSpace(s[k])
      {
        assert k > 0 ==> s[k] == rest[k - 1];
      }
    } else if s != [] && IsSpace(s[|s| - 1]) {
      var rest := s[..|s| - 1];
      i, j := TrimCuts(rest);
      assert rest[i..j] == s[i..j];
      forall k | 0 <= k < i || j <= k < |s|
        ensures IsSpace(s[k])
      {
        assert k < |rest| ==> s[k] == rest[k];
      }
    }
  }

  lemma {:induction false} TrimStops(s: string)
    ensures Trim(s) != "" ==> !IsSpace(Trim(s)[0]) && !IsSpace(Trim(s)[|Trim(s)| - 1])
  {
    if s != [] && IsSpace(s[0]) {
      TrimStops(s[1..]);
    } else if s != [] && IsSpace(s[|s| - 1]) {
      TrimStops(s[..|s| - 1]);
    }
  }

  /** Trimming cuts white space from both ends, all of it and nothing else. */
  lemma TrimIsExact(s: string) returns (i: nat, j: nat)
    ensures i <= j <= |s| && Trim(s) == s[i..j] && AllSpace(s[..i]) && AllSpace(s[j..])
    ensures Trim(s) != "" ==> !IsSpace(Trim(s)[0]) && !IsSpace(Trim(s)[|Trim(s)| - 1])
    ensures Trim(s) == "" <==> AllSpace(s)
  {
    i, j := TrimCuts(s);
    TrimStops(s);
    if i < j {
      assert Trim(s)[0] == s[i];
    }
  }

  /** White space is what `trim` cuts: the blanks and line ends of ECMAScript, by code. */
  lemma SpaceExactly(c: char)
    ensures IsSpace(c) <==> c as int in {9, 10, 11, 12, 13, 32, 160, 5760, 8192, 8193, 8194, 8195, 8196, 8197, 8198,
                                         8199, 8200, 8201, 8202, 8232, 8233, 8239, 8287, 12288, 65279}
  {
  }

  /** Text with something in it besides white space. */
  predicate Filled(v: Json) { v.Text? && !AllSpace(v.text) }

  /** The text spells the lower-case word in any case; a long s (code 383) also counts as an s. */
  predicate Spells(text: string, word: string) {
    |text| == |word| && forall i | 0 <= i < |word| ::
      text[i] == word[i] || text[i] as int == word[i] as int - 32 || (word[i] == 's' && text[i] as int == 383)
  }

  lemma SameText(s: string, t: string)
    ensures s == t <==> |s| == |t| && forall i | 0 <= i < |s| :: s[i] == t[i]
  {
  }

  lemma AssetSpelled(text: string)
    ensures Upper(text) == "XLM" <==> Spells(text, "xlm")
    ensures Upper(text) == "USDC" <==> Spells(text, "usdc")
    ensures !(Spells(text, "xlm") && Spells(text, "usdc"))
  {
    UpperSpells(text, "xlm", "XLM");
    UpperSpells(text, "usdc", "USDC");
  }

  lemma UpperSpells(text: string, word: string, upper: string)
    requires |word| == |upper|
    requires forall i | 0 <= i < |word| :: 'a' <= word[i] <= 'z' && upper[i] as int == word[i] as int - 32
    ensures Upper(text) == upper <==> Spells(text, word)
  {
    SameText(Upper(text), upper);
    forall i | 0 <= i < |text| && i < |word|
      ensures Upper(text)[i] == upper[i]
              <==> text[i] == word[i] || text[i] as int == word[i] as int - 32
                   || (word[i] == 's' && text[i] as int == 383)
    {
    }
  }

  lemma StatusSpelled(text: string)
    ensures Lower(text) == "pending" <==> Spells(text, "pending")
    ensures Lower(text) == "failed" <==> Spells(text, "failed")
    ensures Lower(text) == "completed" <==> Spells(text, "completed")
  {
    SameText(Lower(text), "pending");
    SameText(Lower(text), "failed");
    SameText(Lower(text), "completed");
  }

  predicate NamesAsset(v: Json, word: string) { Filled(v) && Spells(Trim(v.text), word) }

  predicate KnownAsset(v: Json) { !Filled(v) || NamesAsset(v, "xlm") || NamesAsset(v, "usdc") }

  /** The amount a payload field stands for, if any, before its sign is looked at. */
  function UnitsOf(v: Json, cfg: Config): Option<int> {
    if v.Num? then Some(v.units) else if Filled(v) then cfg.number(Trim(v.text)) else None
  }

  lemma ReadStringExactly(v: Json)
    ensures ReadString(v) == if Filled(v) then Good(Trim(v.text)) else Bad(MissingField)
    ensures ReadOptionalString(v) == if Filled(v) then Some(Trim(v.text)) else None
  {
    if v.Text? {
      var _, _ := TrimIsExact(v.text);
    }
  }

  /** An amount is accepted exactly when the field stands for a positive number, and is that number. */
  lemma ReadAmountExactly(v: Json, cfg: Config)
    ensures var units := UnitsOf(v, cfg);
            && (ReadAmount(v, cfg).Good? <==> units.Some? && units.value > 0)
            && (ReadAmount(v, cfg).Good? ==> ReadAmount(v, cfg).value == units.value)
  {
    ReadStringExactly(v);
  }

  lemma NormalizeAssetExactly(v: Json)
    ensures NormalizeAsset(v).Good? <==> KnownAsset(v)
    ensures NormalizeAsset(v) == Good(USDC) <==> NamesAsset(v, "usdc")
  {
    ReadStringExactly(v);
    if Filled(v) {
      AssetSpelled(Trim(v.text));
    }
  }

  /** The status a withdrawal event gives: one of three words in any case, after trimming. */
  predicate NamesStatus(v: Json, status: WithdrawalStatus) {
    Filled(v)
    && match status
       case WithdrawalPending => Spells(Trim(v.text), "pending")
       case WithdrawalFailed => Spells(Trim(v.text), "failed")
       case WithdrawalCompleted => Spells(Trim(v.text), "completed")
       case NoWithdrawal => false
  }

  lemma StatusReadExactly(v: Json)
    ensures forall status :: NormalizeWithdrawalStatus(v) == Good(status) <==> NamesStatus(v, status)
    ensures NormalizeWithdrawalStatus(v).Bad? ==> NormalizeWithdrawalStatus(v) == Bad(UnsupportedStatus)
  {
    ReadStringExactly(v);
    if Filled(v) {
      StatusSpelled(Trim(v.text));
    }
  }

  // ---------- The rows requests stand for ----------

  predicate Absent(x: Option<string>) { x == None || x == Some("") }

  /** A tip event that stands for a row: both wallets are given, the asset is known or absent, the
      amount is a positive number and the receiver is a user. */
  predicate ValidEvent(data: EventData, cfg: Config) {
    && Filled(data.receiverWallet) && Filled(data.senderWallet) && KnownAsset(data.asset)
    && UnitsOf(data.amount, cfg).Some? && UnitsOf(data.amount, cfg).value > 0
    && Trim(data.receiverWallet.text) in cfg.users
  }

  /** Every column of the row of a valid tip event. */
  predicate EventRow(t: Tip, hash: string, data: EventData, cfg: Config)
    requires ValidEvent(data, cfg)
  {
    && t.creatorId == cfg.users[Trim(data.receiverWallet.text)] && t.supporterId == None
    && t.senderWallet == Trim(data.senderWallet.text) && t.receiverWallet == Trim(data.receiverWallet.text)
    && t.amount == UnitsOf(data.amount, cfg).value
    && t.asset == (if NamesAsset(data.asset, "usdc") then USDC else XLM)
    && t.assetIssuer == (if t.asset == XLM then None
                         else if Filled(data.assetIssuer) then Some(Trim(data.assetIssuer.text))
                         else if Absent(cfg.usdcIssuer) then None else cfg.usdcIssuer)
    && t.message == (if Filled(data.message) then Trim(data.message.text) else "")
    && t.transactionHash == Some(hash) && t.status == Completed
    && t.withdrawalStatus == NoWithdrawal && t.withdrawalHash == None
  }

  /** A tip event stands for a row exactly when it is valid, and then for this one. */
  lemma TipEventExactly(hash: string, data: EventData, cfg: Config)
    ensures TipOfEvent(hash, data, cfg).Good? <==> ValidEvent(data, cfg)
    ensures ValidEvent(data, cfg) ==> EventRow(TipOfEvent(hash, data, cfg).value, hash, data, cfg)
  {
    ReadStringExactly(data.receiverWallet);
    ReadStringExactly(data.senderWallet);
    ReadStringExactly(data.assetIssuer);
    ReadStringExactly(data.message);
    NormalizeAssetExactly(data.asset);
    ReadAmountExactly(data.amount, cfg);
    if Filled(data.assetIssuer) {
      var _, _ := TrimIsExact(data.assetIssuer.text);
    }
  }

  predicate WantsXlm(dto: CreateTipDto) { Absent(dto.asset) || dto.asset == Some("XLM") }

  /** A creation request that is stored: the receiver is a user, the amount is positive and the asset
      is XLM (also by default) or, with an issuer configured, USDC. */
  predicate ValidRequest(dto: CreateTipDto, cfg: Config) {
    && dto.receiverWallet in cfg.users && dto.amount > 0
    && (WantsXlm(dto) || (dto.asset == Some("USDC") && !Absent(cfg.usdcIssuer)))
  }

  /** Every column of the row of a valid creation request: its amount is the requested one, and it
      counts at once exactly when it comes with a hash. */
  predicate RequestRow(t: Tip, dto: CreateTipDto, supporterId: Option<string>, cfg: Config)
    requires ValidRequest(dto, cfg)
  {
    && t.creatorId == cfg.users[dto.receiverWallet]
    && t.supporterId == (if Absent(supporterId) then None else supporterId)
    && t.senderWallet == (if Absent(dto.senderWallet) then "" else dto.senderWallet.value)
    && t.receiverWallet == dto.receiverWallet && t.amount == dto.amount
    && t.asset == (if WantsXlm(dto) then XLM else USDC)
    && t.assetIssuer == (if WantsXlm(dto) then None
                         else if Absent(dto.assetIssuer) then cfg.usdcIssuer else dto.assetIssuer)
    && t.message == (if Absent(dto.message) then "" else dto.message.value)
    && t.transactionHash == (if Absent(dto.transactionHash) then None else dto.transactionHash)
    && t.status == (if Absent(dto.transactionHash) then Pending else Completed)
    && t.withdrawalStatus == NoWithdrawal && t.withdrawalHash == None
  }

  /** A creation request stands for a row exactly when it is valid, and then for this one. */
  lemma CreatedTipExactly(dto: CreateTipDto, supporterId: Option<string>, cfg: Config)
    ensures TipOfDto(dto, supporterId, cfg).Good? <==> ValidRequest(dto, cfg)
    ensures ValidRequest(dto, cfg) ==> RequestRow(TipOfDto(dto, supporterId, cfg).value, dto, supporterId, cfg)
  {
  }
}

// The node factory (src/operations/NodeCreator.js): one default record per
// node type, with an id and a business name built from a sequence number.

module NodeCreator {
  import opened GraphTypes
  import opened Strings

  /** `createBankNode(x, y, n)`. */
  function CreateBankNode(x: real, y: real, n: nat): Node
  {
    Node("bank-" + NatToString(n), x, y, Bank,
         map["bankId" := Str("BANK" + NatToString(n)),
             "entity" := Str("GSCO"),
             "routingCode" := Str("HATRUS33"),
             "currency" := Str("USD"),
             "projected" := Num(500),
             "actual" := Num(200),
             "min" := Num(100),
             "max" := Num(900),
             "creditLine" := Null,
             "beneficialLocation" := Bool(false),
             "projectionAware" := Bool(false),
             "streetCover" := Bool(false)])
  }

  /** `createCreditLineNode(x, y, n)`. */
  function CreateCreditLineNode(x: real, y: real, n: nat): Node
  {
    Node("cl-" + NatToString(n), x, y, CreditLine,
         map["name" := Str("CL" + NatToString(n)), "amount" := Num(1000)])
  }

  /** `createProjectionNode(x, y, n)`; the factor 1.0 is the integer 1. */
  function CreateProjectionNode(x: real, y: real, n: nat): Node
  {
    Node("proj-" + NatToString(n), x, y, Projection,
         map["name" := Str("PRJ_ENT" + NatToString(n)), "factor" := Num(1)])
  }

  /** `createStreetNode(x, y, n)`. */
  function CreateStreetNode(x: real, y: real, n: nat): Node
  {
    Node("street-" + NatToString(n), x, y, Street,
         map["name" := Str("STREET" + NatToString(n)), "capacity" := Num(5000)])
  }

  /** The node a factory of the given type creates. */
  function CreateNode(kind: NodeType, x: real, y: real, n: nat): Node
  {
    match kind
    case Bank => CreateBankNode(x, y, n)
    case CreditLine => CreateCreditLineNode(x, y, n)
    case Projection => CreateProjectionNode(x, y, n)
    case Street => CreateStreetNode(x, y, n)
  }

  /** The id prefix of each type. */
  function IdPrefix(kind: NodeType): string
  {
    match kind
    case Bank => "bank-"
    case CreditLine => "cl-"
    case Projection => "proj-"
    case Street => "street-"
  }

  /** The prefix of the business name (`bankId` for banks, `name` otherwise). */
  function NamePrefix(kind: NodeType): string
  {
    match kind
    case Bank => "BANK"
    case CreditLine => "CL"
    case Projection => "PRJ_ENT"
    case Street => "STREET"
  }

  /** The property a node's business name is kept under. */
  function NameKey(kind: NodeType): string
  {
    if kind == Bank then "bankId" else "name"
  }

  /** The business name the factory gives sequence number `n`. */
  function DefaultName(kind: NodeType, n: nat): string
  {
    NamePrefix(kind) + NatToString(n)
  }

  /**
   * Every factory keeps the position, sets the type, builds the id from the
   * type's prefix and the number, and stores the business name under the
   * type's name key.
   */
  lemma CreateNodeShape(kind: NodeType, x: real, y: real, n: nat)
    ensures var node := CreateNode(kind, x, y, n);
            && node.x == x && node.y == y && node.kind == kind
            && node.id == IdPrefix(kind) + NatToString(n)
            && Get(node.props, NameKey(kind)) == Str(DefaultName(kind, n))
  {
  }

  /** A new bank has no credit line, no derived flags and the entity GSCO. */
  lemma NewBankDefaults(x: real, y: real, n: nat)
    ensures var p := CreateBankNode(x, y, n).props;
            && Get(p, "creditLine") == Null
            && Get(p, "projectionAware") == Bool(false)
            && Get(p, "streetCover") == Bool(false)
            && Get(p, "entity") == Str("GSCO")
            && Get(p, "name") == Undef
  {
  }

  /** The other defaults: credit-line amount, projection factor, street capacity. */
  lemma NewNodeDefaults(x: real, y: real, n: nat)
    ensures Get(CreateCreditLineNode(x, y, n).props, "amount") == Num(1000)
    ensures Get(CreateProjectionNode(x, y, n).props, "factor") == Num(1)
    ensures Get(CreateStreetNode(x, y, n).props, "capacity") == Num(5000)
  {
  }

  lemma PrefixedNumberInjective(prefix: string, a: nat, b: nat)
    requires prefix + NatToString(a) == prefix + NatToString(b)
    ensures a == b
  {
    PrefixCancel(prefix, NatToString(a), NatToString(b));
    NatToStringInjective(a, b);
  }

  /** Within one type, distinct sequence numbers give distinct ids and distinct names. */
  lemma IdsInjective(kind: NodeType, x1: real, y1: real, a: nat, x2: real, y2: real, b: nat)
    ensures CreateNode(kind, x1, y1, a).id == CreateNode(kind, x2, y2, b).id <==> a == b
    ensures DefaultName(kind, a) == DefaultName(kind, b) <==> a == b
  {
    CreateNodeShape(kind, x1, y1, a);
    CreateNodeShape(kind, x2, y2, b);
    if CreateNode(kind, x1, y1, a).id == CreateNode(kind, x2, y2, b).id {
      PrefixedNumberInjective(IdPrefix(kind), a, b);
    }
    if DefaultName(kind, a) == DefaultName(kind, b) {
      PrefixedNumberInjective(NamePrefix(kind), a, b);
    }
  }

  /** Nodes of different types never share an id: the four id prefixes start with different letters. */
  lemma IdsDistinctAcrossTypes(k1: NodeType, k2: NodeType, x1: real, y1: real, a: nat, x2: real, y2: real, b: nat)
    requires k1 != k2
    ensures CreateNode(k1, x1, y1, a).id != CreateNode(k2, x2, y2, b).id
  {
    CreateNodeShape(k1, x1, y1, a);
    CreateNodeShape(k2, x2, y2, b);
    assert CreateNode(k1, x1, y1, a).id[0] == IdPrefix(k1)[0];
    assert CreateNode(k2, x2, y2, b).id[0] == IdPrefix(k2)[0];
  }

  /** The entity suffix (`split('_')[1]`) of a default projection name is `ENT` and the number. */
  lemma DefaultProjectionSuffix(n: nat)
    ensures Field1(DefaultName(Projection, n)) == "ENT" + NatToString(n)
    ensures Field1(DefaultName(Projection, n)) != "GSCO"
  {
    var digits := NatToString(n);
    assert '_' !in "ENT" + digits by {
      forall i | 0 <= i < |"ENT" + digits| ensures ("ENT" + digits)[i] != '_' {
        if i >= 3 {
          assert ("ENT" + digits)[i] == digits[i - 3];
        }
      }
    }
    assert DefaultName(Projection, n) == "PRJ" + "_" + ("ENT" + digits) + [];
    Field1OfJoin("PRJ", "ENT" + digits, []);
    assert ("ENT" + digits)[0] == 'E';
  }

  /** A default projection name passes `^PRJ_[A-Za-z0-9]{4}$` exactly for the numbers 0 to 9. */
  lemma DefaultProjectionNameValid(n: nat)
    ensures ValidProjectionName(DefaultName(Projection, n)) <==> n < 10
  {
    var s := DefaultName(Projection, n);
    assert |s| == 7 + |NatToString(n)|;
    if n < 10 {
      assert s[..4] == "PRJ_";
      assert s[7] == NatToString(n)[0];
      assert forall i :: 4 <= i < 8 ==> IsAlnum(s[i]);
    }
  }
}

// The code-owned placeholder tables of src/modules/email/email-template-registry.ts.
module TemplateRegistry {

  datatype TemplateKey =
    | VENDOR_INVITE
    | ADMIN_INVITE
    | STORE_MEMBER_INVITE
    | PASSWORD_RESET
    | EMAIL_VERIFICATION
    | ORDER_PAID
    | ORDER_STATUS_CHANGED
    | VENDOR_ACCOUNT_SUSPENDED

  datatype PlaceholderInfo = PlaceholderInfo(name: string, trustedHtml: bool)

  const SYSTEM_PLACEHOLDERS: seq<PlaceholderInfo> := [PlaceholderInfo("logoUrl", false)]

  function Scalar(name: string): PlaceholderInfo {
    PlaceholderInfo(name, false)
  }

  function GetPlaceholdersForKey(key: TemplateKey): seq<PlaceholderInfo> {
    match key
    case VENDOR_INVITE => [Scalar("inviteUrl")]
    case ADMIN_INVITE => [Scalar("inviteUrl")]
    case STORE_MEMBER_INVITE => [Scalar("inviteUrl"), Scalar("storeName")]
    case PASSWORD_RESET => [Scalar("resetUrl")]
    case EMAIL_VERIFICATION => [Scalar("verifyUrl")]
    case ORDER_PAID =>
      [Scalar("orderNumber"), Scalar("orderDate"), Scalar("paymentMethod"), Scalar("customerName"), Scalar("subtotal"),
       Scalar("discountAmount"), Scalar("shippingFee"), Scalar("total"), Scalar("orderUrl"),
           PlaceholderInfo("itemsHtml", true)]
    case ORDER_STATUS_CHANGED =>
      [Scalar("orderNumber"), Scalar("status"), Scalar("statusLabel"), Scalar("orderDate"), Scalar("orderUrl")]
    case VENDOR_ACCOUNT_SUSPENDED => [Scalar("vendorName"), Scalar("storeName")]
  }

  function Names(ps: seq<PlaceholderInfo>): set<string> {
    set p | p in ps :: p.name
  }

  function TrustedNames(ps: seq<PlaceholderInfo>): set<string> {
    set p | p in ps && p.trustedHtml :: p.name
  }
}

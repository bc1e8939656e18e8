/** The progress screen (components/ProcessingState.tsx): the clamped progress, the
    whole percentage shown in the ring, and the status line. */
module ProcessingState {
  import opened Types
  import JsMath

  /** A JavaScript number as the component receives it: finite, or NaN/Infinity. */
  datatype JsNumber = Finite(value: real) | NotFinite

  /** Number.isFinite(p) ? Math.min(100, Math.max(0, p)) : 0 */
  function SafeProgress(progress: JsNumber): (r: real)
    ensures 0.0 <= r <= 100.0
    ensures progress.Finite? && 0.0 <= progress.value <= 100.0 ==> r == progress.value
    ensures progress.Finite? && progress.value > 100.0 ==> r == 100.0
    ensures progress.NotFinite? || progress.value < 0.0 ==> r == 0.0
  {
    if progress.Finite? then
      var atLeastZero := if progress.value > 0.0 then progress.value else 0.0;
      if atLeastZero < 100.0 then atLeastZero else 100.0
    else 0.0
  }

  /** Math.round(safeProgress), the number in the middle of the ring. */
  function DisplayedPercent(progress: JsNumber): (r: int)
    ensures 0 <= r <= 100
  {
    JsMath.JsRound(SafeProgress(progress))
  }

  const ConvertLabels: seq<string> := ["Resimler Hazırlanıyor...", "PDF Sayfaları Oluşturuluyor...", "Dosya Paketleniyor..."]
  const CompressLabels: seq<string> := ["Dosya Analiz Ediliyor...", "Sıkıştırma Uygulanıyor...", "Son İşlemler..."]

  function Labels(mode: AppMode): seq<string>
  {
    if mode == Convert then ConvertLabels else CompressLabels
  }

  /** getStatusText(): a non-empty message, else a label by progress band. */
  function StatusText(progress: JsNumber, mode: AppMode, message: string): string
  {
    var p, labels := SafeProgress(progress), Labels(mode);
    if message != "" then message
    else if p < 30.0 then labels[0]
    else if p < 80.0 then labels[1]
    else labels[2]
  }

  // ---------------------------------------------------------------------------
  // Properties

  /** Clamping is idempotent and monotone on finite input. */
  lemma {:induction false} SafeProgressClamp(x: real, y: real)
    ensures SafeProgress(Finite(SafeProgress(Finite(x)))) == SafeProgress(Finite(x))
    ensures x <= y ==> SafeProgress(Finite(x)) <= SafeProgress(Finite(y))
  {
  }

  /** A non-empty message always wins over the bands. */
  lemma {:induction false} MessageWins(progress: JsNumber, mode: AppMode, message: string)
    requires message != ""
    ensures StatusText(progress, mode, message) == message
  {
  }

  /** Without a message, each mode's three labels cover the range in the disjoint
      bands below 30, from 30 below 80, and from 80 on. */
  lemma {:induction false} StatusBands(progress: JsNumber, mode: AppMode)
    ensures var text, p, l := StatusText(progress, mode, ""), SafeProgress(progress), Labels(mode);
            && |l| == 3 && l[0] != l[1] && l[1] != l[2] && l[0] != l[2]
            && (text == l[0] <==> p < 30.0)
            && (text == l[1] <==> 30.0 <= p < 80.0)
            && (text == l[2] <==> 80.0 <= p)
  {
    if mode == Convert {
      assert ConvertLabels[0][0] == 'R' && ConvertLabels[1][0] == 'P' && ConvertLabels[2][0] == 'D';
    } else {
      assert CompressLabels[0][0] == 'D' && CompressLabels[1][0] == 'S' && CompressLabels[2][0] == 'S';
      assert CompressLabels[1][1] == 'ı' && CompressLabels[2][1] == 'o';
    }
  }

  /** The two modes never share a label. */
  lemma {:induction false} ModesHaveDistinctLabels(i: nat, j: nat)
    requires i < 3 && j < 3
    ensures ConvertLabels[i] != CompressLabels[j]
  {
    if i == 2 && j == 0 {
      assert ConvertLabels[2][6] == 'P' && CompressLabels[0][6] == 'A';
    } else {
      assert ConvertLabels[0][0] == 'R' && ConvertLabels[1][0] == 'P' && ConvertLabels[2][0] == 'D';
      assert CompressLabels[0][0] == 'D' && CompressLabels[1][0] == 'S' && CompressLabels[2][0] == 'S';
    }
  }
}
